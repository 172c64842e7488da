/**
 Invalidation between cache nodes: local writes, publication to bounded queues one subscriber at a
 time, and the handler goroutines, as steps that interleave freely. Every write carries a version
 so that it can be said which copy is the latest.
 */
module Coherence {
  import opened Basics

  type Node = string

  /** Each subscriber's channel holds this many events; a publication to a full one is dropped. */
  const BUFFER := 100

  datatype Event = Event(key: Key, from: Node)

  /** A `Set` that has written locally and still has to publish to `targets`. */
  datatype Publication = Publication(event: Event, targets: set<Node>)

  datatype State = State(
    nodes: set<Node>,
    copies: map<(Node, Key), nat>,
    latest: map<Key, nat>,
    version: nat,
    publishing: map<nat, Publication>,
    queues: map<Node, seq<Event>>,
    inHand: map<Node, Key>)

  datatype Step =
    | Write(node: Node, key: Key)
    | Publish(id: nat, to: Node)
    | Receive(node: Node)
    | Invalidate(node: Node)
    | Lose(node: Node, key: Key)

  function Queue(s: State, n: Node): seq<Event> {
    if n in s.queues then s.queues[n] else []
  }

  function Start(nodes: set<Node>): State {
    State(nodes, map[], map[], 0, map[], map[], map[])
  }

  predicate CanPublish(s: State, id: nat, to: Node) {
    id in s.publishing && to in s.publishing[id].targets
  }

  /** The publication that is left once `to` has been served. */
  function Served(s: State, id: nat, to: Node): map<nat, Publication>
    requires id in s.publishing
  {
    s.publishing[id := s.publishing[id].(targets := s.publishing[id].targets - {to})]
  }

  /** One step; a step that is not possible changes nothing. */
  function Exec(s: State, step: Step): State {
    match step
    case Write(n, k) =>
      if n !in s.nodes then s
      else s.(version := s.version + 1,
              copies := s.copies[(n, k) := s.version + 1],
              latest := s.latest[k := s.version + 1],
              publishing := s.publishing[s.version + 1 := Publication(Event(k, n), s.nodes - {n})])
    case Publish(id, to) =>
      if !CanPublish(s, id, to) then s
      else if |Queue(s, to)| < BUFFER then
        s.(publishing := Served(s, id, to), queues := s.queues[to := Queue(s, to) + [s.publishing[id].event]])
      else s.(publishing := Served(s, id, to))
    case Receive(n) =>
      if n in s.inHand || Queue(s, n) == [] then s
      else if Queue(s, n)[0].from == n then s.(queues := s.queues[n := Queue(s, n)[1..]])
      else s.(queues := s.queues[n := Queue(s, n)[1..]], inHand := s.inHand[n := Queue(s, n)[0].key])
    case Invalidate(n) =>
      if n !in s.inHand then s
      else s.(copies := s.copies - {(n, s.inHand[n])}, inHand := s.inHand - {n})
    case Lose(n, k) => s.(copies := s.copies - {(n, k)})
  }

  function Run(s: State, steps: seq<Step>): State
    decreases |steps|
  {
    if steps == [] then s else Run(Exec(s, steps[0]), steps[1..])
  }

  // ---------- what every step keeps ----------

  predicate Queued(s: State, n: Node, k: Key) {
    exists i :: 0 <= i < |Queue(s, n)| && Queue(s, n)[i].key == k
  }

  predicate Unpublished(s: State, n: Node, k: Key) {
    && k in s.latest && s.latest[k] in s.publishing
    && s.publishing[s.latest[k]].event.key == k
    && n in s.publishing[s.latest[k]].targets
  }

  /** An invalidation of `k` will still reach `n`. */
  predicate Covered(s: State, n: Node, k: Key) {
    Queued(s, n, k) || (n in s.inHand && s.inHand[n] == k) || Unpublished(s, n, k)
  }

  predicate StaleCopy(s: State, n: Node, k: Key) {
    (n, k) in s.copies && (k !in s.latest || s.copies[(n, k)] != s.latest[k])
  }

  ghost predicate Tidy(s: State) {
    && (forall n, k :: (n, k) in s.copies ==> n in s.nodes)
    && (forall k :: k in s.latest ==> s.latest[k] <= s.version)
    && (forall id :: id in s.publishing ==> id <= s.version && s.publishing[id].event.from !in s.publishing[id].targets)
    && (forall n, i :: 0 <= i < |Queue(s, n)| ==> Queue(s, n)[i].from != n)
  }

  /** Every stale copy has its invalidation queued, in hand, or not yet published by the latest writer. */
  ghost predicate Coherent(s: State) {
    Tidy(s) && forall n, k :: StaleCopy(s, n, k) ==> Covered(s, n, k)
  }

  /** Dropping this event would leave a stale copy that nothing else is going to invalidate. */
  predicate Needed(s: State, id: nat, to: Node) {
    && CanPublish(s, id, to)
    && var k := s.publishing[id].event.key;
       && StaleCopy(s, to, k)
       && !Queued(s, to, k) && !(to in s.inHand && s.inHand[to] == k)
       && k in s.latest && s.latest[k] == id
  }

  predicate Drops(s: State, step: Step) {
    step.Publish? && CanPublish(s, step.id, step.to) && |Queue(s, step.to)| >= BUFFER
  }

  lemma TidyStep(s: State, step: Step)
    requires Tidy(s)
    ensures Tidy(Exec(s, step))
  {
    var s' := Exec(s, step);
    forall n, i | 0 <= i < |Queue(s', n)| ensures Queue(s', n)[i].from != n {
      if step.Publish? && s' != s && n == step.to && |Queue(s, n)| < BUFFER {
        assert i < |Queue(s, n)| ==> Queue(s', n)[i] == Queue(s, n)[i];
      } else if step.Receive? && s' != s && n == step.node {
        assert Queue(s', n)[i] == Queue(s, n)[i + 1];
      } else {
        assert Queue(s', n) == Queue(s, n);
      }
    }
  }

  /** One step keeps coherence, unless it drops an event that is needed. */
  lemma StepCoherent(s: State, step: Step)
    requires Coherent(s)
    requires Drops(s, step) ==> !Needed(s, step.id, step.to)
    ensures Coherent(Exec(s, step))
  {
    var s' := Exec(s, step);
    TidyStep(s, step);
    forall n, k | StaleCopy(s', n, k) ensures Covered(s', n, k) {
      match step {
        case Write(w, j) => WriteCovers(s, w, j, n, k);
        case Publish(id, to) => PublishCovers(s, id, to, n, k);
        case Receive(m) => ReceiveCovers(s, m, n, k);
        case Invalidate(m) =>
          assert StaleCopy(s, n, k);
          assert Queue(s', n) == Queue(s, n);
        case Lose(m, j) =>
          assert StaleCopy(s, n, k);
          assert Queue(s', n) == Queue(s, n);
      }
    }
  }

  lemma WriteCovers(s: State, w: Node, j: Key, n: Node, k: Key)
    requires Coherent(s) && StaleCopy(Exec(s, Write(w, j)), n, k)
    ensures Covered(Exec(s, Write(w, j)), n, k)
  {
    var s' := Exec(s, Write(w, j));
    if s' != s {
      assert Queue(s', n) == Queue(s, n);
      if k == j {
        assert n != w && (n, k) in s.copies;
        assert Unpublished(s', n, k);
      } else {
        assert StaleCopy(s, n, k);
        if Unpublished(s, n, k) {
          assert s.latest[k] != s.version + 1;
        }
      }
    }
  }

  lemma PublishCovers(s: State, id: nat, to: Node, n: Node, k: Key)
    requires Coherent(s) && StaleCopy(s, n, k)
    requires Drops(s, Publish(id, to)) ==> !Needed(s, id, to)
    ensures Covered(Exec(s, Publish(id, to)), n, k)
  {
    var s' := Exec(s, Publish(id, to));
    if CanPublish(s, id, to) {
      if Queued(s, n, k) {
        var i :| 0 <= i < |Queue(s, n)| && Queue(s, n)[i].key == k;
        assert Queue(s', n)[i].key == k;
      } else if !(n in s.inHand && s.inHand[n] == k) {
        assert Unpublished(s, n, k);
        if n == to && s.latest[k] == id {
          assert |Queue(s, to)| < BUFFER;
          assert Queue(s', n)[|Queue(s, n)|].key == k;
        } else {
          assert Unpublished(s', n, k);
        }
      }
    }
  }

  lemma ReceiveCovers(s: State, m: Node, n: Node, k: Key)
    requires Coherent(s) && StaleCopy(s, n, k)
    ensures Covered(Exec(s, Receive(m)), n, k)
  {
    var s' := Exec(s, Receive(m));
    if Queued(s, n, k) && s' != s {
      var i :| 0 <= i < |Queue(s, n)| && Queue(s, n)[i].key == k;
      if n != m {
        assert Queue(s', n)[i].key == k;
      } else if i > 0 {
        assert Queue(s', n)[i - 1].key == k;
      } else {
        assert s'.inHand[n] == k;
      }
    }
  }

  /** A publication keeps coherence exactly when it does not drop an event that is needed. */
  lemma PublishCoherentExactly(s: State, id: nat, to: Node)
    requires Coherent(s)
    ensures Coherent(Exec(s, Publish(id, to))) <==> !(Drops(s, Publish(id, to)) && Needed(s, id, to))
  {
    if Drops(s, Publish(id, to)) && Needed(s, id, to) {
      var s' := Exec(s, Publish(id, to));
      var k := s.publishing[id].event.key;
      assert StaleCopy(s', to, k);
      assert Queue(s', to) == Queue(s, to);
      assert !Covered(s', to, k);
    } else {
      StepCoherent(s, Publish(id, to));
    }
  }

  /** No step of the run drops an event that is needed. */
  predicate LosesNothing(s: State, steps: seq<Step>)
    decreases |steps|
  {
    steps == [] ||
    (&& (Drops(s, steps[0]) ==> !Needed(s, steps[0].id, steps[0].to))
     && LosesNothing(Exec(s, steps[0]), steps[1..]))
  }

  lemma {:induction false} RunCoherent(s: State, steps: seq<Step>)
    requires Coherent(s) && LosesNothing(s, steps)
    ensures Coherent(Run(s, steps))
    decreases |steps|
  {
    if steps != [] {
      StepCoherent(s, steps[0]);
      RunCoherent(Exec(s, steps[0]), steps[1..]);
    }
  }

  predicate Quiet(s: State) {
    && (forall id :: id in s.publishing ==> s.publishing[id].targets == {})
    && (forall n :: n in s.queues ==> s.queues[n] == [])
    && s.inHand == map[]
  }

  /**
   In every interleaving that drops no needed event, once everything published has been handled,
   every surviving copy is of the globally latest write of its key.
   */
  lemma QuietIsCoherent(nodes: set<Node>, steps: seq<Step>, n: Node, k: Key)
    requires LosesNothing(Start(nodes), steps)
    requires Quiet(Run(Start(nodes), steps)) && (n, k) in Run(Start(nodes), steps).copies
    ensures var s := Run(Start(nodes), steps);
      k in s.latest && s.copies[(n, k)] == s.latest[k]
  {
    var s := Run(Start(nodes), steps);
    RunCoherent(Start(nodes), steps);
    QuietCoversNothing(s, n, k);
  }

  lemma QuietCoversNothing(s: State, n: Node, k: Key)
    requires Quiet(s)
    ensures !Covered(s, n, k)
  {
  }

  /**
   A copy leaves a node only when the node loses that very copy or handles an invalidation of that
   very key, and changes only when the node itself writes the key.
   */
  lemma CopiesStay(s: State, step: Step, n: Node, k: Key)
    requires (n, k) in s.copies
    ensures (n, k) !in Exec(s, step).copies <==>
      step == Lose(n, k) || (step == Invalidate(n) && n in s.inHand && s.inHand[n] == k)
    ensures (n, k) in Exec(s, step).copies && Exec(s, step).copies[(n, k)] != s.copies[(n, k)] ==> step == Write(n, k)
  {
  }

  /** What a node has in hand, another node wrote: a node never invalidates on account of its own writes. */
  lemma InHandIsForeign(s: State, n: Node)
    requires Tidy(s) && n !in s.inHand && n in Exec(s, Receive(n)).inHand
    ensures Queue(s, n) != [] && Queue(s, n)[0].from != n && Exec(s, Receive(n)).inHand[n] == Queue(s, n)[0].key
  {
  }

  // ---------- what dropping costs ----------

  lemma {:induction false} RunAppend(s: State, xs: seq<Step>, ys: seq<Step>)
    ensures Run(s, xs + ys) == Run(Run(s, xs), ys)
    decreases |xs|
  {
    hide Exec;
    if xs == [] {
      assert xs + ys == ys;
    } else {
      assert (xs + ys)[1..] == xs[1..] + ys;
      RunAppend(Exec(s, xs[0]), xs[1..], ys);
    }
  }

  /** `b` writes `k`; then `a` writes `j` again and again while `b` handles nothing. */
  function Flood(a: Node, b: Node, j: Key, k: Key, n: nat): seq<Step> {
    if n == 0 then [Write(b, k)] else Flood(a, b, j, k, n - 1) + [Write(a, j), Publish(n + 1, b)]
  }

  predicate Flooded(s: State, a: Node, b: Node, j: Key, k: Key, n: nat) {
    && s.nodes == {a, b} && s.version == n + 1 && b !in s.inHand
    && (b, k) in s.copies && s.copies[(b, k)] == 1
    && |Queue(s, b)| == n && (forall i :: 0 <= i < n ==> Queue(s, b)[i].key == j)
  }

  lemma {:induction false} FloodFills(a: Node, b: Node, j: Key, k: Key, n: nat)
    requires a != b && j != k && n <= BUFFER
    ensures Flooded(Run(Start({a, b}), Flood(a, b, j, k, n)), a, b, j, k, n)
  {
    if n == 0 {
      assert Run(Start({a, b}), [Write(b, k)]) == Exec(Start({a, b}), Write(b, k)) by {
        assert [Write(b, k)][1..] == [];
      }
    } else {
      FloodFills(a, b, j, k, n - 1);
      var s := Run(Start({a, b}), Flood(a, b, j, k, n - 1));
      RunAppend(Start({a, b}), Flood(a, b, j, k, n - 1), [Write(a, j), Publish(n + 1, b)]);
      RunTwo(s, Write(a, j), Publish(n + 1, b));
      var w := Exec(s, Write(a, j));
      assert Queue(w, b) == Queue(s, b);
      assert CanPublish(w, n + 1, b);
      assert Queue(Exec(w, Publish(n + 1, b)), b) == Queue(s, b) + [Event(j, a)];
    }
  }

  lemma RunTwo(s: State, x: Step, y: Step)
    ensures Run(s, [x, y]) == Exec(Exec(s, x), y)
  {
    hide Exec;
    assert [x, y][1..] == [y] && [y][1..] == [];
    assert Run(Exec(s, x), [y]) == Exec(Exec(s, x), y);
  }

  /**
   With a hundred unhandled events in the way, the invalidation of `k` is dropped: `b` keeps a copy
   that is not the latest and that nothing is going to invalidate.
   */
  lemma OverflowLeavesStaleCopy(a: Node, b: Node, j: Key, k: Key, n: nat)
    requires a != b && j != k && n == 100
    ensures var s := Run(Start({a, b}), Flood(a, b, j, k, n) + [Write(a, k), Publish(n + 2, b)]);
      StaleCopy(s, b, k) && !Covered(s, b, k)
  {
    hide Flood, Exec, Covered, StaleCopy, Flooded, Run;
    FloodFills(a, b, j, k, n);
    var start, flood := Start({a, b}), Flood(a, b, j, k, n);
    var s, last := Run(start, flood), [Write(a, k), Publish(n + 2, b)];
    RunAppend(start, flood, last);
    RunTwo(s, Write(a, k), Publish(n + 2, b));
    DropAfterFlood(s, a, b, j, k, n);
  }

  lemma DropAfterFlood(s: State, a: Node, b: Node, j: Key, k: Key, n: nat)
    requires a != b && j != k && n == 100 && Flooded(s, a, b, j, k, n)
    ensures var d := Exec(Exec(s, Write(a, k)), Publish(n + 2, b));
      StaleCopy(d, b, k) && !Covered(d, b, k)
  {
    var w := Exec(s, Write(a, k));
    assert Queue(w, b) == Queue(s, b);
    assert CanPublish(w, n + 2, b);
    var d := Exec(w, Publish(n + 2, b));
    assert Queue(d, b) == Queue(s, b);
  }
}
