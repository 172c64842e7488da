/** What the eviction policies have in common: a state machine whose every call meets the cache contract. */
module Policies {
  import opened Basics
  import opened CacheContract

  /**
   A policy: its empty state and its calls, what a state holds, whether Delete of a key answers
   true, and the stored bytes it accounts for. `ok` is the invariant of its states.
   */
  datatype Policy<!S> = Policy(
    start: S,
    step: (S, Call) -> Outcome<S>,
    ok: S -> bool,
    holds: S -> Contents,
    found: (S, Key) -> bool,
    bytes: S -> nat)

  /** One call keeps the invariant and meets the contract, but for silence about empty victims. */
  ghost predicate Kept<S>(p: Policy<S>, s: S, call: Call) {
    var o := p.step(s, call);
    && p.ok(o.state)
    && ContentsStep(p.holds(s), call, p.holds(o.state), o.answer)
    && ReportedBarEmpty(p.holds(s), call, p.holds(o.state), o.evicted)
  }

  /** The state holds no more than `capacity` entries, accounts for their bytes, and finds what it holds. */
  ghost predicate Sized<S>(p: Policy<S>, capacity: nat, s: S) {
    && |p.holds(s)| <= capacity
    && p.bytes(s) == TotalBytes(p.holds(s))
    && forall k :: k in p.holds(s) ==> p.found(s, k)
  }

  /** A policy of the given capacity, as the write policies and the sharded cache need it. */
  ghost predicate Sound<S(!new)>(p: Policy<S>, capacity: nat) {
    && p.ok(p.start) && p.holds(p.start) == map[]
    && (forall s :: p.ok(s) ==> Sized(p, capacity, s))
    && (forall s, call :: p.ok(s) ==> Kept(p, s, call))
  }

  /** A policy whose callback hears of every eviction, and that finds nothing but what it holds. */
  ghost predicate Exact<S(!new)>(p: Policy<S>) {
    && (forall s, call :: p.ok(s) ==>
          Reported(p.holds(s), call, p.holds(p.step(s, call).state), p.step(s, call).evicted))
    && (forall s, k :: p.ok(s) && p.found(s, k) ==> k in p.holds(s))
  }

  // ---------- runs ----------

  function After<S>(p: Policy<S>, calls: seq<Call>): S {
    if calls == [] then p.start else p.step(After(p, calls[..|calls| - 1]), calls[|calls| - 1]).state
  }

  /** The contents, answers and reports along a run from the empty state. */
  function ContentsAlong<S>(p: Policy<S>, calls: seq<Call>): seq<Contents> {
    seq(|calls| + 1, i requires 0 <= i <= |calls| => p.holds(After(p, calls[..i])))
  }

  function AnswersAlong<S>(p: Policy<S>, calls: seq<Call>): seq<Option<Bytes>> {
    seq(|calls|, i requires 0 <= i < |calls| => p.step(After(p, calls[..i]), calls[i]).answer)
  }

  function ReportsAlong<S>(p: Policy<S>, calls: seq<Call>): seq<seq<(Key, Bytes)>> {
    seq(|calls|, i requires 0 <= i < |calls| => p.step(After(p, calls[..i]), calls[i]).evicted)
  }

  lemma {:induction false} AfterIsOk<S(!new)>(p: Policy<S>, capacity: nat, calls: seq<Call>)
    requires Sound(p, capacity)
    ensures p.ok(After(p, calls)) && Sized(p, capacity, After(p, calls))
  {
    if calls != [] {
      var before := calls[..|calls| - 1];
      AfterIsOk(p, capacity, before);
      assert Kept(p, After(p, before), calls[|calls| - 1]);
    }
  }

  lemma Starts<S(!new)>(p: Policy<S>, capacity: nat)
    requires Sound(p, capacity)
    ensures After(p, []) == p.start && p.holds(p.start) == map[]
  {
  }

  /** One step of a run: an invariant state, and the contract between it and the next. */
  lemma StepAlong<S(!new)>(p: Policy<S>, capacity: nat, calls: seq<Call>, i: nat)
    requires Sound(p, capacity) && i < |calls|
    ensures var s, o := After(p, calls[..i]), p.step(After(p, calls[..i]), calls[i]);
      && p.ok(s) && After(p, calls[..i + 1]) == o.state
      && ContentsStep(p.holds(s), calls[i], p.holds(o.state), o.answer)
      && ReportedBarEmpty(p.holds(s), calls[i], p.holds(o.state), o.evicted)
      && (Exact(p) ==> Reported(p.holds(s), calls[i], p.holds(o.state), o.evicted))
  {
    hide ContentsStep, ReportedBarEmpty, Reported;
    AfterIsOk(p, capacity, calls[..i]);
    assert Kept(p, After(p, calls[..i]), calls[i]);
    assert calls[..i + 1][..i] == calls[..i];
  }

  /**
   Every run of a sound policy is a run of the cache contract, so its hits are latest writes. An
   exact policy also reports every eviction of the run.
   */
  lemma RunMeetsContract<S(!new)>(p: Policy<S>, capacity: nat, calls: seq<Call>)
    requires Sound(p, capacity)
    ensures IsRun(ContentsAlong(p, calls), calls, AnswersAlong(p, calls))
    ensures forall i :: 0 <= i < |calls| ==>
      var c := ContentsAlong(p, calls);
      && ReportedBarEmpty(c[i], calls[i], c[i + 1], ReportsAlong(p, calls)[i])
      && (Exact(p) ==> Reported(c[i], calls[i], c[i + 1], ReportsAlong(p, calls)[i]))
  {
    hide ContentsStep, ReportedBarEmpty, Reported, Exact, Sound, After;
    Starts(p, capacity);
    assert calls[..0] == [];
    forall i | 0 <= i < |calls|
      ensures var c := ContentsAlong(p, calls);
        && ContentsStep(c[i], calls[i], c[i + 1], AnswersAlong(p, calls)[i])
        && ReportedBarEmpty(c[i], calls[i], c[i + 1], ReportsAlong(p, calls)[i])
        && (Exact(p) ==> Reported(c[i], calls[i], c[i + 1], ReportsAlong(p, calls)[i]))
    {
      StepAlong(p, capacity, calls, i);
    }
  }

  // ---------- use, told from the calls and their answers ----------

  /** A call uses a key when it writes it, or reads it and finds it. A Peek is no use. */
  predicate UsedBy(call: Call, answer: Option<Bytes>, k: Key) {
    match call.op
    case Set(j, _, _) => j == k
    case Get(j) => j == k && answer.Some?
    case _ => false
  }

  /** Which call of a run used `k` last, counted from 1; 0 if none did. */
  function LastUse<S>(p: Policy<S>, calls: seq<Call>, k: Key): (n: nat)
    ensures n <= |calls|
  {
    if calls == [] then 0
    else
      var before, last := calls[..|calls| - 1], calls[|calls| - 1];
      if UsedBy(last, p.step(After(p, before), last).answer, k) then |calls| else LastUse(p, before, k)
  }

  /** How often `k` was used since it came in: a use that finds nothing of it brings it in and counts as none. */
  function Touches<S>(p: Policy<S>, calls: seq<Call>, k: Key): nat {
    if calls == [] then 0
    else
      var before, last := calls[..|calls| - 1], calls[|calls| - 1];
      if !p.found(After(p, before), k) then 0
      else Touches(p, before, k) + (if UsedBy(last, p.step(After(p, before), last).answer, k) then 1 else 0)
  }

  /** Which call of a run took `k` out of what is held last, counted from 1; 0 if none did. */
  function LeftAt<S>(p: Policy<S>, calls: seq<Call>, k: Key): (n: nat)
    ensures n <= |calls|
  {
    if calls == [] then 0
    else
      var before := calls[..|calls| - 1];
      if k in p.holds(After(p, before)) && k !in p.holds(After(p, calls)) then |calls| else LeftAt(p, before, k)
  }

  // ---------- runs without empty values ----------

  predicate NoEmptyValue(c: Contents) {
    forall k :: k in c ==> c[k].value != []
  }

  lemma {:induction false} NeverEmpty<S(!new)>(p: Policy<S>, capacity: nat, calls: seq<Call>)
    requires Sound(p, capacity)
    requires forall i :: 0 <= i < |calls| && calls[i].op.Set? ==> calls[i].op.value != []
    ensures NoEmptyValue(p.holds(After(p, calls)))
  {
    hide ReportedBarEmpty, Sized;
    Starts(p, capacity);
    if calls != [] {
      var before := calls[..|calls| - 1];
      NeverEmpty(p, capacity, before);
      AfterIsOk(p, capacity, before);
      assert Kept(p, After(p, before), calls[|calls| - 1]);
    }
  }

  /** In a run that never writes an empty value, every sound policy reports every eviction. */
  lemma NonEmptyRunReports<S(!new)>(p: Policy<S>, capacity: nat, calls: seq<Call>, i: nat)
    requires Sound(p, capacity) && i < |calls|
    requires forall j :: 0 <= j < |calls| && calls[j].op.Set? ==> calls[j].op.value != []
    ensures var c := ContentsAlong(p, calls);
      Step(c[i], calls[i], c[i + 1], AnswersAlong(p, calls)[i], ReportsAlong(p, calls)[i])
  {
    hide ContentsStep, Exact, Sound, After;
    StepAlong(p, capacity, calls, i);
    NeverEmpty(p, capacity, calls[..i]);
  }
}
