/**
 Sharding: keys are spread over 256 independent caches by a hash. The shards may follow any policy;
 LRU, LFU and ARC are all sound ones, so everything here holds of each of them.
 */
module Sharded {
  import opened Basics
  import opened CacheContract
  import opened Policies

  const SHARDS := 256

  // ---------- the hash ----------

  const OFFSET := 0x811c9dc5
  const PRIME := 0x01000193
  const WORD := 0x1_0000_0000

  function Pow2(bits: nat): nat {
    if bits == 0 then 1 else 2 * Pow2(bits - 1)
  }

  /** The bitwise exclusive or of the lowest `bits` bits. */
  function Xor(x: nat, y: nat, bits: nat): (z: nat)
    ensures z < Pow2(bits)
  {
    if bits == 0 then 0 else 2 * Xor(x / 2, y / 2, bits - 1) + (x + y) % 2
  }

  lemma {:induction false} XorCancels(x: nat, y: nat, bits: nat)
    requires y < Pow2(bits)
    ensures Xor(x, Xor(x, y, bits), bits) == y
  {
    if bits > 0 {
      XorCancels(x / 2, y / 2, bits - 1);
      var high, z := Xor(x / 2, y / 2, bits - 1), Xor(x, y, bits);
      Halves(high, (x + y) % 2);
      SameParity(x, y, z);
      assert Xor(x, z, bits) == 2 * Xor(x / 2, high, bits - 1) + y % 2;
    }
  }

  lemma Halves(high: nat, bit: nat)
    requires bit < 2
    ensures (2 * high + bit) / 2 == high && (2 * high + bit) % 2 == bit
  {
  }

  lemma SameParity(x: nat, y: nat, z: nat)
    requires z % 2 == (x + y) % 2
    ensures (x + z) % 2 == y % 2
  {
  }

  lemma EightBits()
    ensures Pow2(8) == 256
  {
    assert Pow2(4) == 16;
  }

  function XorByte(x: Byte, y: Byte): Byte {
    EightBits();
    Xor(x as nat, y as nat, 8) as Byte
  }

  function ByteOf(c: char): Byte {
    (c as int % 256) as Byte
  }

  /** One round of 32-bit FNV-1a: mix a byte into the low byte, multiply by the prime. */
  function Mix(h: int, b: Byte): int
    requires 0 <= h < WORD
  {
    (h - h % 256 + XorByte((h % 256) as Byte, b) as int) * PRIME % WORD
  }

  function Fnv1a(key: Key): (h: int)
    ensures 0 <= h < WORD
  {
    if key == "" then OFFSET else Mix(Fnv1a(key[..|key| - 1]), ByteOf(key[|key| - 1]))
  }

  /** The low eight bits of the hash. */
  function ShardFor(key: Key): (i: nat)
    ensures i < SHARDS
  {
    Fnv1a(key) % SHARDS
  }

  function OneByteKey(b: Byte): Key {
    [b as int as char]
  }

  /** Among the keys of one byte there is one for every shard. */
  lemma OneByteKeysReach(i: nat) returns (b: Byte)
    requires i < SHARDS
    ensures ShardFor(OneByteKey(b)) == i
  {
    hide Xor, Mix, Fnv1a;
    var low := (i * 155 % 256) as Byte;
    b := XorByte(0xc5, low);
    EightBits();
    XorCancels(0xc5, low as nat, 8);
    assert XorByte(0xc5, b) == low;
    OneByteHash(b);
    MixLow(OFFSET, b);
    Inverse(i);
  }

  lemma OneByteHash(b: Byte)
    ensures Fnv1a(OneByteKey(b)) == Mix(OFFSET, b)
  {
    hide Mix;
    var key := OneByteKey(b);
    assert key[..0] == "";
    assert ByteOf(key[0]) == b;
  }

  lemma LowByte(mixed: int, low: int)
    requires 0 <= low < 256 && 0 <= mixed && mixed % 256 == low
    ensures mixed * PRIME % WORD % 256 == low * 0x93 % 256
  {
    var n := mixed / 256;
    assert mixed * PRIME == 256 * (n * PRIME + low * 0x10001) + low * 0x93;
    var q := mixed * PRIME / WORD;
    assert mixed * PRIME % WORD == mixed * PRIME - q * WORD;
    var m := n * PRIME + low * 0x10001 - q * 0x1000000;
    assert mixed * PRIME % WORD == 256 * m + low * 0x93;
    AddMultiple(low * 0x93, m);
  }

  lemma Residue(x: int, m: int, r: int)
    requires x == 256 * m + r && 0 <= r < 256
    ensures x % 256 == r
  {
  }

  lemma AddMultiple(x: int, m: int)
    ensures (256 * m + x) % 256 == x % 256
  {
    Residue(256 * m + x, m + x / 256, x % 256);
  }

  /** 155 and 0x93 are inverse to each other modulo 256: their product is 89 * 256 + 1. */
  lemma Inverse(i: int)
    requires 0 <= i < 256
    ensures i * 155 % 256 * 0x93 % 256 == i
  {
    var q, r := i * 155 / 256, i * 155 % 256;
    assert r == i * 155 - 256 * q;
    Residue(r * 0x93, i * 89 - q * 0x93, i);
  }

  lemma {:induction false} XorCommutes(x: nat, y: nat, bits: nat)
    ensures Xor(x, y, bits) == Xor(y, x, bits)
  {
    if bits > 0 {
      XorCommutes(x / 2, y / 2, bits - 1);
    }
  }

  lemma XorInjective(x: Byte, y: Byte, b: Byte)
    requires XorByte(x, b) == XorByte(y, b) || XorByte(b, x) == XorByte(b, y)
    ensures x == y
  {
    hide Xor;
    EightBits();
    XorCommutes(x as nat, b as nat, 8);
    XorCommutes(y as nat, b as nat, 8);
    XorCancels(b as nat, x as nat, 8);
    XorCancels(b as nat, y as nat, 8);
  }

  /** A round takes the low byte to its exclusive or with the new byte, times 0x93. */
  lemma MixLow(h: int, b: Byte)
    requires 0 <= h < WORD
    ensures Mix(h, b) % 256 == XorByte((h % 256) as Byte, b) as int * 0x93 % 256
  {
    hide XorByte;
    var low := XorByte((h % 256) as Byte, b) as int;
    AddMultiple(low, h / 256);
    LowByte(h - h % 256 + low, low);
  }

  /** So a round tells two hashes apart by their low bytes, and a hash apart from itself by the bytes mixed in. */
  lemma MixInjective(g: int, h: int, a: Byte, b: Byte)
    requires 0 <= g < WORD && 0 <= h < WORD
    requires g % 256 == h % 256 || a == b
    requires Mix(g, a) % 256 == Mix(h, b) % 256
    ensures g % 256 == h % 256 && a == b
  {
    hide XorByte, Mix;
    MixLow(g, a);
    MixLow(h, b);
    var x, y := XorByte((g % 256) as Byte, a), XorByte((h % 256) as Byte, b);
    Undo(x as int);
    Undo(y as int);
    if g % 256 == h % 256 {
      XorInjective(a, b, (g % 256) as Byte);
    } else {
      XorInjective((g % 256) as Byte, (h % 256) as Byte, a);
    }
  }

  /** Multiplying by 155 takes back a multiplication by 0x93. */
  lemma Undo(x: int)
    requires 0 <= x < 256
    ensures x * 0x93 % 256 * 155 % 256 == x
  {
    var q, r := x * 0x93 / 256, x * 0x93 % 256;
    assert r == x * 0x93 - 256 * q;
    Residue(r * 155, x * 89 - q * 155, x);
  }

  /** The first `n` bytes of two keys are the same, but perhaps for the one at `i`. */
  predicate SameBut(k: Key, l: Key, i: nat, n: nat)
    requires n <= |k| && n <= |l|
  {
    forall j :: 0 <= j < n && j != i ==> ByteOf(k[j]) == ByteOf(l[j])
  }

  lemma {:induction false} PrefixHash(k: Key, l: Key, i: nat, n: nat)
    requires n <= |k| && n <= |l| && SameBut(k, l, i, n)
    ensures n <= i ==> Fnv1a(k[..n]) == Fnv1a(l[..n])
    ensures i < n && ByteOf(k[i]) != ByteOf(l[i]) ==> Fnv1a(k[..n]) % 256 != Fnv1a(l[..n]) % 256
  {
    hide Mix, ByteOf;
    if n > 0 {
      PrefixHash(k, l, i, n - 1);
      assert k[..n][..n - 1] == k[..n - 1] && l[..n][..n - 1] == l[..n - 1];
      if i < n && ByteOf(k[i]) != ByteOf(l[i]) && Fnv1a(k[..n]) % 256 == Fnv1a(l[..n]) % 256 {
        MixInjective(Fnv1a(k[..n - 1]), Fnv1a(l[..n - 1]), ByteOf(k[n - 1]), ByteOf(l[n - 1]));
        assert false;
      }
    }
  }

  /** Two keys of the same length that differ in exactly one byte, wherever it stands, are in different shards. */
  lemma OneByteApart(k: Key, l: Key, i: nat)
    requires |k| == |l| && i < |k| && SameBut(k, l, i, |k|) && ByteOf(k[i]) != ByteOf(l[i])
    ensures ShardFor(k) != ShardFor(l)
  {
    hide ByteOf;
    PrefixHash(k, l, i, |k|);
    assert k[..|k|] == k && l[..|l|] == l;
  }

  /** Published values of 32-bit FNV-1a. */
  lemma PublishedHashes()
    ensures Fnv1a("") == 0x811c9dc5
    ensures Fnv1a("f") == 0xe30c2799
    ensures Fnv1a("fo") == 0x6222e842
    ensures Fnv1a("foo") == 0xa9f37ed7
    ensures Fnv1a("foob") == 0x3f5076ef
    ensures Fnv1a("fooba") == 0x39aaa18a
    ensures Fnv1a("foobar") == 0xbf9cf968
  {
    hide Mix, Fnv1a;
    EmptyHash();
    HashNext("", 'f');
    HashNext("f", 'o');
    HashNext("fo", 'o');
    HashNext("foo", 'b');
    HashNext("foob", 'a');
    HashNext("fooba", 'r');
    assert "" + ['f'] == "f" && "f" + ['o'] == "fo" && "fo" + ['o'] == "foo";
    assert "foo" + ['b'] == "foob" && "foob" + ['a'] == "fooba" && "fooba" + ['r'] == "foobar";
    MixValues();
    MoreMixValues();
  }

  lemma HashNext(key: Key, c: char)
    ensures Fnv1a(key + [c]) == Mix(Fnv1a(key), ByteOf(c))
  {
    hide Mix, ByteOf;
    assert (key + [c])[..|key|] == key;
  }

  /** In the four low bits, `z` is set exactly where one of `x` and `y` is. */
  predicate FourBits(x: nat, y: nat, z: nat) {
    && (x + y + z) % 2 == 0
    && (x / 2 + y / 2 + z / 2) % 2 == 0
    && (x / 4 + y / 4 + z / 4) % 2 == 0
    && (x / 8 + y / 8 + z / 8) % 2 == 0
  }

  lemma NextBit(x: nat, y: nat, z: nat, bits: nat)
    requires 0 < bits && Xor(x / 2, y / 2, bits - 1) == z / 2 && (x + y + z) % 2 == 0
    ensures Xor(x, y, bits) == z
  {
    hide Pow2;
    Parity(x + y, z);
    assert Xor(x, y, bits) == 2 * Xor(x / 2, y / 2, bits - 1) + (x + y) % 2;
  }

  lemma Parity(w: nat, z: nat)
    requires (w + z) % 2 == 0
    ensures z == 2 * (z / 2) + w % 2
  {
  }

  lemma XorFour(x: nat, y: nat, z: nat, bits: nat)
    requires FourBits(x, y, z) && Xor(x / 16, y / 16, bits) == z / 16
    ensures Xor(x, y, bits + 4) == z
  {
    hide Xor, Pow2;
    assert x / 8 / 2 == x / 16 && y / 8 / 2 == y / 16 && z / 8 / 2 == z / 16;
    NextBit(x / 8, y / 8, z / 8, bits + 1);
    assert x / 4 / 2 == x / 8 && y / 4 / 2 == y / 8 && z / 4 / 2 == z / 8;
    NextBit(x / 4, y / 4, z / 4, bits + 2);
    assert x / 2 / 2 == x / 4 && y / 2 / 2 == y / 4 && z / 2 / 2 == z / 4;
    NextBit(x / 2, y / 2, z / 2, bits + 3);
    NextBit(x, y, z, bits + 4);
  }

  lemma XorIsBitwise(x: Byte, y: Byte, z: Byte)
    requires FourBits(x as nat, y as nat, z as nat)
    requires FourBits(x as nat / 16, y as nat / 16, z as nat / 16)
    ensures XorByte(x, y) == z
  {
    hide FourBits, Pow2;
    XorFour(x as nat / 16, y as nat / 16, z as nat / 16, 0);
    XorFour(x as nat, y as nat, z as nat, 4);
  }

  lemma EmptyHash()
    ensures Fnv1a("") == 0x811c9dc5
  {
  }

  /** A round by its parts: the low byte, the exclusive or, and quotient and remainder of the product. */
  lemma MixIs(h: int, b: Byte, low: Byte, x: Byte, q: int, r: int)
    requires 0 <= h < WORD && h % 256 == low as int && FourBits(low as nat, b as nat, x as nat)
    requires FourBits(low as nat / 16, b as nat / 16, x as nat / 16)
    requires (h - low as int + x as int) * PRIME == q * WORD + r && 0 <= r < WORD
    ensures Mix(h, b) == r
  {
    hide FourBits, XorByte;
    XorIsBitwise(low, b, x);
    Quotient((h - low as int + x as int) * PRIME, q, r);
  }

  lemma Quotient(n: int, q: int, r: int)
    requires n == q * WORD + r && 0 <= r < WORD
    ensures n % WORD == r
  {
  }

  lemma MixValues()
    ensures Mix(0x811c9dc5, 102) == 0xe30c2799
    ensures Mix(0xe30c2799, 111) == 0x6222e842
    ensures Mix(0x6222e842, 111) == 0xa9f37ed7
  {
    hide Mix;
    MixIs(0x811c9dc5, 102, 0xc5, 0xa3, 0x811d68, 0xe30c2799);
    MixIs(0xe30c2799, 111, 0x99, 0xf6, 0xe30d8d, 0x6222e842);
    MixIs(0x6222e842, 111, 0x42, 0x2d, 0x622382, 0xa9f37ed7);
  }

  lemma MoreMixValues()
    ensures Mix(0xa9f37ed7, 98) == 0x3f5076ef
    ensures Mix(0x3f5076ef, 97) == 0x39aaa18a
    ensures Mix(0x39aaa18a, 114) == 0xbf9cf968
  {
    hide Mix;
    MixIs(0xa9f37ed7, 98, 0xd7, 0xb5, 0xa9f48a, 0x3f5076ef);
    MixIs(0x3f5076ef, 97, 0xef, 0x8e, 0x3f50da, 0x39aaa18a);
    MixIs(0x39aaa18a, 114, 0x8a, 0xf8, 0x39aafc, 0xbf9cf968);
  }

  // ---------- a product of independent caches ----------

  /** Whether shard `i` sees a call: its key hashes there, or it goes to every shard. */
  predicate Sees(i: nat, call: Call) {
    call.op.Purge? || ShardFor(call.op.key) == i
  }

  /** The calls that shard `i` sees, in order. */
  function Seen(i: nat, calls: seq<Call>): seq<Call> {
    if calls == [] then []
    else
      var before, last := Seen(i, calls[..|calls| - 1]), calls[|calls| - 1];
      if Sees(i, last) then before + [last] else before
  }

  function Next<S>(p: Policy<S>, shards: seq<S>, call: Call): seq<S> {
    seq(|shards|, i requires 0 <= i < |shards| => if Sees(i, call) then p.step(shards[i], call).state else shards[i])
  }

  function Fresh<S>(p: Policy<S>): seq<S> {
    seq(SHARDS, _ => p.start)
  }

  /** The shards after a run of calls on a sharded cache that starts empty. */
  function RunAll<S>(p: Policy<S>, calls: seq<Call>): (r: seq<S>)
    ensures |r| == SHARDS
  {
    if calls == [] then Fresh(p) else Next(p, RunAll(p, calls[..|calls| - 1]), calls[|calls| - 1])
  }

  /**
   After any run, whatever the policy, each shard is in the state of a single cache that was fed
   exactly the calls whose keys hash to it.
   */
  lemma {:induction false} ShardsAreIndependent<S>(p: Policy<S>, calls: seq<Call>, i: nat)
    requires i < SHARDS
    ensures RunAll(p, calls)[i] == After(p, Seen(i, calls))
  {
    if calls != [] {
      var before, last := calls[..|calls| - 1], calls[|calls| - 1];
      ShardsAreIndependent(p, before, i);
      var seen := Seen(i, before);
      if Sees(i, last) {
        assert Seen(i, calls) == seen + [last];
        assert (seen + [last])[..|seen|] == seen;
      }
    }
  }

  // ---------- sizes ----------

  function PerShard(total: int): nat {
    var perShard := if total < 0 then 0 else total / SHARDS;
    if perShard < 1 then 1 else perShard
  }

  /** The shards share out the total capacity, but for a remainder, and never get less than one each. */
  lemma PerShardIs(total: int, n: nat)
    ensures PerShard(total) == n <==>
      if total < SHARDS then n == 1 else SHARDS * n <= total < SHARDS * (n + 1)
  {
  }

  function SumLen<S>(p: Policy<S>, shards: seq<S>): nat {
    if shards == [] then 0 else SumLen(p, shards[..|shards| - 1]) + |p.holds(shards[|shards| - 1])|
  }

  lemma {:induction false} SumBounds<S>(p: Policy<S>, shards: seq<S>, n: nat, least: nat, most: nat)
    requires n <= |shards| && forall i :: 0 <= i < |shards| ==> least <= |p.holds(shards[i])| <= most
    ensures n * least <= SumLen(p, shards[..n]) <= n * most
  {
    if n > 0 {
      SumBounds(p, shards, n - 1, least, most);
      assert shards[..n][..n - 1] == shards[..n - 1];
      assert n * least == (n - 1) * least + least && n * most == (n - 1) * most + most;
    }
  }

  /** Every shard is in a state of its policy, within its own capacity. */
  lemma ShardIsSized<S(!new)>(p: Policy<S>, capacity: nat, calls: seq<Call>, i: nat)
    requires Sound(p, capacity) && i < SHARDS
    ensures p.ok(RunAll(p, calls)[i]) && Sized(p, capacity, RunAll(p, calls)[i])
  {
    ShardsAreIndependent(p, calls, i);
    AfterIsOk(p, capacity, Seen(i, calls));
  }

  /** The size never exceeds 256 shards of the per-shard capacity. */
  lemma LenBound<S(!new)>(p: Policy<S>, total: int, calls: seq<Call>)
    requires Sound(p, PerShard(total))
    ensures SumLen(p, RunAll(p, calls)) <= SHARDS * PerShard(total)
  {
    hide Sound, RunAll;
    var shards := RunAll(p, calls);
    forall i | 0 <= i < SHARDS ensures |p.holds(shards[i])| <= PerShard(total) {
      ShardIsSized(p, PerShard(total), calls, i);
    }
    SumBounds(p, shards, SHARDS, 0, PerShard(total));
    assert shards[..SHARDS] == shards;
  }

  /** One write of every key of one byte. */
  function EveryByte(n: nat, now: int): seq<Call>
    requires n <= 256
  {
    seq(n, i requires 0 <= i < n => Call(Set(OneByteKey(i as Byte), [], 0), now))
  }

  lemma {:induction false} SeenContains(i: nat, calls: seq<Call>, j: nat)
    requires j < |calls| && Sees(i, calls[j])
    ensures Seen(i, calls) != []
  {
    if j < |calls| - 1 {
      SeenContains(i, calls[..|calls| - 1], j);
    }
  }

  lemma {:induction false} SeenAreCalls(i: nat, calls: seq<Call>)
    requires forall j :: 0 <= j < |calls| ==> calls[j].op.Set?
    ensures forall j :: 0 <= j < |Seen(i, calls)| ==> Seen(i, calls)[j].op.Set?
  {
    if calls != [] {
      SeenAreCalls(i, calls[..|calls| - 1]);
    }
  }

  /** What was written last is held. */
  lemma LastSetStays<S(!new)>(p: Policy<S>, capacity: nat, calls: seq<Call>)
    requires Sound(p, capacity) && calls != [] && calls[|calls| - 1].op.Set?
    ensures |p.holds(After(p, calls))| >= 1
  {
    hide Sized, ReportedBarEmpty;
    var before, last := calls[..|calls| - 1], calls[|calls| - 1];
    AfterIsOk(p, capacity, before);
    assert Kept(p, After(p, before), last);
    assert last.op.key in p.holds(After(p, calls));
  }

  /** After the writes of all one-byte keys every shard holds something. */
  lemma EveryShardFilled<S(!new)>(p: Policy<S>, capacity: nat, now: int, i: nat)
    requires Sound(p, capacity) && i < SHARDS
    ensures |p.holds(RunAll(p, EveryByte(256, now))[i])| >= 1
  {
    hide Sound, RunAll, After, ShardFor;
    var calls := EveryByte(256, now);
    ShardsAreIndependent(p, calls, i);
    var b := OneByteKeysReach(i);
    assert calls[b as nat].op.key == OneByteKey(b);
    SeenContains(i, calls, b as nat);
    SeenAreCalls(i, calls);
    LastSetStays(p, capacity, Seen(i, calls));
  }

  /**
   The advertised capacity is respected in every run exactly when it is at least 256: below that,
   one entry per shard already exceeds it.
   */
  lemma CapacityRespectedExactly<S(!new)>(p: Policy<S>, total: int, now: int)
    requires Sound(p, PerShard(total))
    ensures (forall calls :: SumLen(p, RunAll(p, calls)) <= total) <==> total >= SHARDS
  {
    hide Sound, RunAll, SumLen, EveryByte;
    if total >= SHARDS {
      forall calls ensures SumLen(p, RunAll(p, calls)) <= total {
        LenBound(p, total, calls);
        assert SHARDS * (total / SHARDS) <= total;
      }
    } else {
      var calls := EveryByte(256, now);
      var shards := RunAll(p, calls);
      forall i | 0 <= i < SHARDS ensures 1 <= |p.holds(shards[i])| <= PerShard(total) {
        EveryShardFilled(p, PerShard(total), now, i);
        ShardIsSized(p, PerShard(total), calls, i);
      }
      SumBounds(p, shards, SHARDS, 1, PerShard(total));
      assert shards[..SHARDS] == shards;
      assert SumLen(p, RunAll(p, calls)) > total;
    }
  }

  // ---------- keys ----------

  /** A shard only ever holds keys that hash to it. */
  lemma {:induction false} KeyAtHome<S(!new)>(p: Policy<S>, capacity: nat, calls: seq<Call>, i: nat, k: Key)
    requires Sound(p, capacity) && i < SHARDS && k in p.holds(RunAll(p, calls)[i])
    ensures ShardFor(k) == i
  {
    hide ShardFor, Sized, ReportedBarEmpty;
    if calls != [] {
      var before, last := calls[..|calls| - 1], calls[|calls| - 1];
      var s := RunAll(p, before)[i];
      ShardIsSized(p, capacity, before, i);
      assert Kept(p, s, last);
      if k in p.holds(s) {
        KeyAtHome(p, capacity, before, i, k);
      }
    }
  }

  /** No key is ever held by two shards. */
  lemma ShardsHoldDisjointKeys<S(!new)>(p: Policy<S>, capacity: nat, calls: seq<Call>, i: nat, j: nat, k: Key)
    requires Sound(p, capacity) && i < SHARDS && j < SHARDS
    requires k in p.holds(RunAll(p, calls)[i]) && k in p.holds(RunAll(p, calls)[j])
    ensures i == j
  {
    KeyAtHome(p, capacity, calls, i, k);
    KeyAtHome(p, capacity, calls, j, k);
  }
}
