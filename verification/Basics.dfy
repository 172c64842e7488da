/** Vocabulary shared by every component: keys, byte strings, clock readings and deadlines. */
module Basics {

  datatype Option<+T> = None | Some(value: T)

  type Key = string

  newtype Byte = x: int | 0 <= x < 256

  type Bytes = seq<Byte>

  /** An expiry time. `Never` is Go's zero time; `At(t)` is an instant in nanoseconds. */
  datatype Deadline = Never | At(t: int)

  /** The deadline a call at `now` gives an entry whose time-to-live is `ttl` (0 or less: none). */
  function DeadlineFor(now: int, ttl: int): Deadline {
    if ttl > 0 then At(now + ttl) else Never
  }

  /** The caches' expiry test: strictly after the deadline. */
  predicate Expired(d: Deadline, now: int) {
    d.At? && now > d.t
  }

  /** Strictly before the deadline. At the deadline a cached copy still answers and the store no longer does. */
  predicate Ahead(d: Deadline, now: int) {
    d == Never || now < d.t
  }

  datatype Item = Item(value: Bytes, deadline: Deadline)

  function Lookup<K, V>(m: map<K, V>, k: K): Option<V> {
    if k in m then Some(m[k]) else None
  }

  /** Removing one key takes exactly one entry out of a map. */
  lemma RemoveShrinks<K, V>(m: map<K, V>, k: K)
    requires k in m
    ensures |m - {k}| == |m| - 1
  {
    assert (m - {k}).Keys == m.Keys - {k};
  }
}
