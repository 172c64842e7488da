# Cache engine: a verified model

A Dafny model of the cache engine's core: three eviction policies, two write policies over a
backing store, the multi-node invalidation protocol, the TTL wheel, the sharded cache, the rate
limiters and the rolling statistics. Every proof is for all inputs, all runs or all interleavings.

Conventions. A cache operation runs under its mutex, so it is one atomic step and makes one clock
reading, `now`. Times are integers in nanoseconds; `Never` is Go's zero time. Store and transaction
failures, evictions of an unspecified inner cache and the JSON library on every payload outside the
form the encoder writes (base64 text in that string included) are parameters or free choices, so
nothing is assumed about them. An empty value and Go's nil slice are one value. Where the documents
and the code disagree the model follows the code.

How the parts fit:

| file | what it holds |
|---|---|
| CacheContract, InnerCache | what any cache promises, as a relation on contents, answers and eviction reports; a cache that does anything the contract allows |
| Policies | policies as state machines that meet the contract, their runs, and what the calls of a run say about the use of a key; LRU, LFU, ARC and sharded caches are instances |
| LruSpec, LruInclusion, LruCache | recency sequence and what it means in terms of the calls, inclusion theorem, pointer structure |
| LfuSpec, LfuBuckets, LfuCache | eviction by (frequency, last touch), buckets, heap nodes in one linked list per frequency with a lazy minimum |
| ArcSpec, ArcTheorems, ArcContract, ArcHistory, ArcCache | four lists and adaptive target; bounds and scan resistance; callback; target, victims and lists told from the calls; heap nodes in four linked lists |
| LinkedList, CacheNodes, KeyLists | the generic doubly linked list; the nodes of LFU and ARC that point back into it; lists of keys |
| Base64, Codec, WriteThrough | store encoding; write-through for any inner cache |
| WriteBackCell, WriteBack, WriteBackRuns | write-back seen from one key, the cache itself, and its runs with deadlines and failures |
| Coherence | invalidation over bounded queues |
| TtlHeap, WheelProtocol | indexed heap; wake-up protocol |
| Sharded, ShardedContract, ShardedCache, ShardedInstances | hashing, a product of any policies, the cache over a factory |
| RateLimit, WindowedStats | rate limits, ring buffer |

Results that differ from the documents or from what one might expect:

- The design documents claim `|T2| + |B2| <= capacity` for ARC (`ARCHITECTURE.md:167`). The code leaves it, in exactly the calls
  that `ArcTheorems.DocumentedBoundExactly` names; what it keeps instead is `|B1| + |B2| <= capacity`.
- ARC's `replace` does not call the eviction callback for an empty value; `ArcContract.ReportsExactly` says exactly when, and
  `ArcContract.SilentRun` reaches it. Over ARC, write-back can therefore lose an empty value (`WriteBackRuns.VanishedIsLost`);
  in runs without empty values ARC reports everything (`Policies.NonEmptyRunReports`).
- Write-back can answer something other than the last acknowledged write. `WriteBackCell.StepReads` says for every event, store
  failures included, exactly when; `WriteBackRuns.ExpiryUncoversOlder` and `FailedFlushKeepsOlder` are runs in which it does.
- The TTL wheel is timely while nothing is being scheduled; traffic can starve it without bound (`WheelProtocol.TrafficStarvesExpiry`).
- The bus drops the incoming event when a queue is full, not the oldest one; `Coherence.PublishCoherentExactly`
  says exactly when that costs coherence.
- The sharded cache keeps to its advertised capacity in all runs exactly when that is at least 256.
- The in-memory rate limiter grants at most `2 * limit - 1` requests in any interval as long as the window.
- SQLite windows shorter than a millisecond share a row, and so a limit, with others that start in the same millisecond
  (`RateLimit.ShortWindowsShare`); from a millisecond up each has its own (`RateLimit.WindowGrantsExactly`).
- A bare value that reads as an envelope does not survive the store; `Codec.RoundTripExactly` is an equivalence.

## Model

| member | source | states |
|---|---|---|
| CacheContract.HeldIsLatest | cache-engine/internal/cache/cache.go:53-67 | in every run of the cache contract, whatever is held for a key is what its latest Set put there, with no Delete or Purge since |
| CacheContract.HitsAreLatest | cache-engine/internal/cache/cache.go:53-67 | every hit of every run returns the value of the latest Set and is never past that Set's deadline |
| CacheContract.HitExactly | cache-engine/internal/cache/lru/lru.go:90-103 | in any cache that meets the contract a value written is read back up to and at the end of its time to live and no longer; without one, always |
| CacheContract.EvictingWrite | cache-engine/internal/cache/cache.go:65-66 | a write that evicts one other entry and tells the callback its value keeps the contract |
| CacheContract.TotalBytesWithout | cache-engine/internal/stats/stats.go:16 | the stored-bytes total is independent of the order in which entries are taken out |
| CacheContract.TotalBytesWith | cache-engine/internal/cache/lru/lru.go:118-120 | overwriting or adding an entry changes the total by exactly the difference in length |
| Policies.AfterIsOk | cache-engine/internal/cache/cache.go:53-67 | every run of a sound policy keeps its invariant, its capacity and its byte count |
| Policies.RunMeetsContract | cache-engine/internal/cache/cache.go:53-67 | every run of a sound policy is a run of the contract, so its hits are latest writes; an exact one reports every eviction |
| Policies.NonEmptyRunReports | cache-engine/internal/cache/arc/arc.go:89-103 | in a run that never writes an empty value every sound policy, ARC included, meets the whole contract on every call |
| InnerCache.InnerCache.Set | cache-engine/internal/cache/cache.go:55 | a write of a cache about which only the contract is known: any others may be evicted, each reported at most once with its value; an exact cache reports all, another all but empty values |
| InnerCache.InnerCache.Peek | cache-engine/internal/cache/cache.go:57 | a read answers exactly the live entries and drops an expired one |
| LinkedList.List.PushFront | cache-engine/internal/cache/list/list.go:35-47 | both link directions, ends and length stay consistent; the chain gains a new node in front |
| LinkedList.List.PushBack | cache-engine/internal/cache/list/list.go:50-62 | the same at the back |
| LinkedList.List.MoveToFront | cache-engine/internal/cache/list/list.go:65-86 | for a member in any position, the chain is that node followed by the others in order |
| LinkedList.List.Remove | cache-engine/internal/cache/list/list.go:89-103 | the chain loses exactly that node, whose own links are cleared |
| LinkedList.List.ToSlice | cache-engine/internal/cache/list/list.go:106-114 | the walk terminates with the values of the chain in order |
| LruSpec.ApplyKeepsShape | cache-engine/internal/cache/lru/lru.go:80-188 | every call keeps the keys distinct and the size within capacity |
| LruSpec.RunKeepsShape | cache-engine/internal/cache/lru/lru.go:80-188 | so they are in every reachable state |
| LruSpec.MeetsContract | cache-engine/internal/cache/lru/lru.go:80-188 | LRU meets the cache contract on every call: answers, contents and the callback |
| LruSpec.IsPolicy | cache-engine/internal/cache/lru/lru.go:80-262 | LRU is a sound and exact policy: contract, size, stored bytes and reports, on every call |
| LruSpec.SumBytesIsTotal | cache-engine/internal/cache/lru/lru.go:92-151 | summing value lengths along the recency sequence is the contract's stored-bytes total |
| LruSpec.RunIsByUse | cache-engine/internal/cache/lru/lru.go:80-188 | in every run the recency sequence is in the order of last use (a Set, or a Get that hit; a Peek is none), latest first |
| LruSpec.EvictsLongestUnused | cache-engine/internal/cache/lru/lru.go:128-140 | a write evicts only from a full cache and under a new key, and of the keys held the one whose last use, told from the calls, is longest ago |
| LruSpec.ListedByUse | cache-engine/internal/cache/lru/lru.go:191-205 | in every run the listed keys are exactly those held strictly before their deadline, each once, the one used last first |
| LruInclusion.SubsequenceWithout | cache-engine/internal/cache/lru/lru.go:71-77 | removing a key keeps one recency sequence a subsequence of another |
| LruInclusion.SubsequenceInit | cache-engine/internal/cache/lru/lru.go:128-140 | evicting the tail of the larger costs the smaller at most its own tail |
| LruInclusion.StepIncluded | cache-engine/internal/cache/lru/lru.go:80-188 | one call with one clock keeps inclusion and the free-slot relation; the larger cache answers whenever the smaller does |
| LruInclusion.RunIncluded | cache-engine/internal/cache/lru/lru.go:80-188 | after any calls the smaller cache's recency sequence is a subsequence of the larger one's, values and deadlines equal |
| LruInclusion.HitsIncluded | cache-engine/internal/cache/lru/lru.go:80-104 | every hit of the smaller cache is the same hit of the larger |
| LruCache.LruCache.constructor | cache-engine/internal/cache/lru/lru.go:33-42 | an empty cache; a capacity of zero or less becomes one |
| LruCache.LruCache.PushFront | cache-engine/internal/cache/lru/lru.go:44-54 | the chain gains the node in front, all links and ends consistent |
| LruCache.LruCache.RemoveNode | cache-engine/internal/cache/lru/lru.go:56-69 | the chain loses exactly the node, all links and ends consistent |
| LruCache.LruCache.MoveToFront | cache-engine/internal/cache/lru/lru.go:71-77 | the node comes first, the others keep their order |
| LruCache.LruCache.Get | cache-engine/internal/cache/lru/lru.go:80-104 | the pointer structure answers and changes as the recency sequence does: hit moves to front, expired entry removed |
| LruCache.LruCache.Set | cache-engine/internal/cache/lru/lru.go:107-153 | as the sequence: update in place and to front, or evict the tail when full and insert; the report is that tail |
| LruCache.LruCache.MakeRoom | cache-engine/internal/cache/lru/lru.go:128-140 | a full cache loses exactly its least recently used entry, which is what is reported |
| LruCache.LruCache.Delete | cache-engine/internal/cache/lru/lru.go:156-169 | the key is gone, the others keep their order, and the answer says whether it was there |
| LruCache.LruCache.Peek | cache-engine/internal/cache/lru/lru.go:172-188 | the order is untouched; only an expired entry is removed |
| LruCache.LruCache.Keys | cache-engine/internal/cache/lru/lru.go:191-205 | the walk terminates with the keys strictly before their deadlines, in recency order |
| LruCache.LruCache.Purge | cache-engine/internal/cache/lru/lru.go:255-262 | no entries, empty chain, no stored bytes |
| LfuSpec.ColdestExists | cache-engine/internal/cache/lfu/lfu.go:67-75 | among entries with distinct last touches there is one that comes first by (frequency, last touch) |
| LfuSpec.ColdestUnique | cache-engine/internal/cache/lfu/lfu.go:67-75 | and only one |
| LfuSpec.ApplyKeeps | cache-engine/internal/cache/lfu/lfu.go:91-213 | every call keeps the size within capacity, frequencies positive and last touches distinct |
| LfuSpec.HoldsWrite | cache-engine/internal/cache/lfu/lfu.go:124-165 | a write to a full cache evicts and reports exactly the coldest entry; otherwise nothing is evicted |
| LfuSpec.MeetsContract | cache-engine/internal/cache/lfu/lfu.go:91-213 | LFU meets the cache contract on every call, callback included |
| LfuSpec.IsPolicy | cache-engine/internal/cache/lfu/lfu.go:91-213 | LFU is a sound and exact policy: contract, size, stored bytes and reports, on every call |
| LfuSpec.FrequencyCountsUses | cache-engine/internal/cache/lfu/lfu.go:47-65 | in every run a key's frequency is 1 plus its hits and writes, counted from the calls, since it came in |
| LfuSpec.StampsFollowCalls | cache-engine/internal/cache/lfu/lfu.go:47-65 | last touches order keys as the calls that used them last |
| LfuSpec.EvictsLeastUsed | cache-engine/internal/cache/lfu/lfu.go:67-88 | so the evicted key is told from the history of calls alone: used least often since it came in, then longest ago |
| LfuBuckets.UnlinkKeeps | cache-engine/internal/cache/lfu/lfu.go:102-109 | taking a key out keeps every bucket exactly its frequency's keys, latest touch first, no empty bucket kept |
| LfuBuckets.LinkKeeps | cache-engine/internal/cache/lfu/lfu.go:60-64 | pushing the newest touch to the front of a bucket keeps all of that |
| LfuBuckets.LowestLastIsColdest | cache-engine/internal/cache/lfu/lfu.go:67-77 | the last key of the lowest bucket is the coldest of all entries |
| LfuCache.MinAfterTouch | cache-engine/internal/cache/lfu/lfu.go:47-58 | after a touch minFreq still bounds every frequency and, in a full cache, is present |
| LfuCache.MinAfterRemove | cache-engine/internal/cache/lfu/lfu.go:167-187 | a deletion may leave minFreq stale but still a lower bound |
| CacheNodes.KeysCut | cache-engine/internal/cache/list/list.go:89-103 | cutting a node's list node out of a chain takes exactly its key out of the list of keys, and the node is nowhere else in it |
| LfuCache.LfuCache.Unhook | cache-engine/internal/cache/lfu/lfu.go:48-53 | a node unlinked through its own list node leaves the bucket of its frequency, which goes when that empties it; all other nodes still point at their own list nodes |
| LfuCache.LfuCache.Hook | cache-engine/internal/cache/lfu/lfu.go:60-64 | a node in no list goes to the front of a frequency's bucket, made if missing, with frequency and list node set |
| LfuCache.LfuCache.IncrementFreq | cache-engine/internal/cache/lfu/lfu.go:47-65 | linked buckets and minFreq agree with one more touch of the key |
| LfuCache.LfuCache.EvictOne | cache-engine/internal/cache/lfu/lfu.go:67-88 | with a full cache minFreq's bucket is there, and the victim is the unique coldest entry |
| LfuCache.LfuCache.Get | cache-engine/internal/cache/lfu/lfu.go:91-121 | linked nodes, buckets and minimum answer and change as the definition by (frequency, last touch) does |
| LfuCache.LfuCache.Set | cache-engine/internal/cache/lfu/lfu.go:124-165 | likewise for update, eviction and insertion, report included |
| LfuCache.LfuCache.Insert | cache-engine/internal/cache/lfu/lfu.go:149-163 | a new key enters at frequency 1, minFreq is then 1, and the invariant that it bounds all frequencies holds |
| LfuCache.LfuCache.Delete | cache-engine/internal/cache/lfu/lfu.go:168-187 | the node is gone from map and bucket; the answer says whether it was there |
| LfuCache.LfuCache.Peek | cache-engine/internal/cache/lfu/lfu.go:190-213 | frequencies are untouched; only an expired entry is removed |
| LfuCache.LfuCache.Purge | cache-engine/internal/cache/lfu/lfu.go:281-288 | no entries and no buckets, minFreq and stored bytes zero |
| ArcSpec.PlaceKeeps | cache-engine/internal/cache/arc/arc.go:137-142 | moving a node to the front of a list keeps the map the disjoint union of four correctly tagged lists, ghosts valueless, and changes sizes by exactly one |
| ArcSpec.ForgetKeeps | cache-engine/internal/cache/arc/arc.go:264-280 | so does removing a node from list and map |
| ArcTheorems.ReplaceEffect | cache-engine/internal/cache/arc/arc.go:82-109 | a replacement turns the last of T1 or T2 into the front ghost of its side, or changes nothing, and touches no other node |
| ArcTheorems.MakeRoomEffect | cache-engine/internal/cache/arc/arc.go:208-246 | after room is made for a new key, T1 and T2 and T1 and B1 are strictly below capacity |
| ArcTheorems.GhostWriteEffect | cache-engine/internal/cache/arc/arc.go:171-206 | on a ghost hit p stays in range and a live slot is free, also when the replacement evicts nothing |
| ArcTheorems.ApplyKeepsBounds | cache-engine/internal/cache/arc/arc.go:112-299 | every call keeps 0 <= p <= c, T1+T2 <= c, T1+B1 <= c, B1+B2 <= c and the four tagged lists |
| ArcTheorems.RunKeepsBounds | cache-engine/internal/cache/arc/arc.go:112-402 | so does every run |
| ArcTheorems.ReachableBounds | cache-engine/internal/cache/arc/arc.go:39-402 | in every reachable state all bounds hold, hence at most twice capacity nodes |
| ArcTheorems.DocumentedBoundExactly | ARCHITECTURE.md:167 | from a state with T2+B2 <= capacity, a call leaves that bound if and only if it promotes from T1 or B1 while T2+B2 is exactly capacity |
| ArcTheorems.DocumentedBoundFails | cache-engine/internal/cache/arc/arc.go:137-260 | six calls on a cache of two leave the documented bound |
| ArcTheorems.ScanStep | cache-engine/internal/cache/arc/arc.go:208-260 | one write of an unknown key leaves p alone, never shrinks T1, and takes from T2 only while T1 is within its target |
| ArcTheorems.ScanResistance | cache-engine/internal/cache/arc/arc.go:208-260 | a scan of any length costs T2 at most its max(0, p+1-T1) least recent entries; the others keep order, value and deadline |
| ArcContract.WriteEvicts | cache-engine/internal/cache/arc/arc.go:147-261 | a write's live contents are the old ones without the one victim, plus the new entry |
| ArcContract.MeetsContents | cache-engine/internal/cache/arc/arc.go:112-299 | ARC answers and changes contents as the cache contract says, on every call |
| ArcContract.ReportsExactly | cache-engine/internal/cache/arc/arc.go:89-103 | the callback hears of every eviction once with its value, if and only if no replacement displaced an empty value |
| ArcContract.ReportsBarEmpty | cache-engine/internal/cache/arc/arc.go:82-109 | in any case the callback hears once of every victim whose value was not empty |
| ArcContract.SilentRun | cache-engine/internal/cache/arc/arc.go:89-103 | a reachable silent call: the fifth call on a cache of two evicts an entry and reports nothing |
| ArcContract.IsPolicy | cache-engine/internal/cache/arc/arc.go:112-402 | ARC is a sound policy: answers, contents, size and reports of non-empty values, on every call |
| ArcContract.IsNotExact | cache-engine/internal/cache/arc/arc.go:89-103 | and not one that reports every eviction |
| ArcHistory.TargetMoves | cache-engine/internal/cache/arc/arc.go:170-195 | a write of a B1 ghost raises the target by how often B1 fits into B2, at least one, and not above the capacity; of a B2 ghost it lowers it likewise, not below zero; every other call but Purge leaves it alone |
| ArcHistory.StrideUnique | cache-engine/internal/cache/arc/arc.go:172-175 | that number is determined by the two lengths |
| ArcHistory.StrideExists | cache-engine/internal/cache/arc/arc.go:172-175 | and there always is one |
| ArcHistory.WriteFate | cache-engine/internal/cache/arc/arc.go:147-261 | when a write evicts, from which side, told by sizes and target; the victim is forgotten or becomes the front ghost of its side, nothing else leaves, and one ghost at most is forgotten, exactly when the directory is full |
| ArcHistory.OthersForget | cache-engine/internal/cache/arc/arc.go:112-299 | any other call but Purge forgets only the key it deletes or finds expired |
| ArcHistory.RunIsOrdered | cache-engine/internal/cache/arc/arc.go:112-299 | in every run a key is on the T1 side if it was not used again since it came into the directory, else on the T2 side; live keys are ordered by last use, ghosts by when they left, latest first |
| ArcHistory.EvictsLongestUnusedOfSide | cache-engine/internal/cache/arc/arc.go:82-109 | so the victim is, of its side, the key whose last use is longest ago, told from the calls |
| ArcHistory.ForgetsOldestGhost | cache-engine/internal/cache/arc/arc.go:211-242 | and the ghost that is forgotten is, of its side, the one that left longest ago |
| ArcCache.ArcCache.constructor | cache-engine/internal/cache/arc/arc.go:39-52 | empty lists, p zero; a capacity of zero or less becomes one |
| ArcCache.ArcCache.RemoveFromList | cache-engine/internal/cache/arc/arc.go:68-79 | the list that the node names loses exactly the list node it points at; every other node still points at its own |
| ArcCache.ArcCache.Unlink | cache-engine/internal/cache/arc/arc.go:68-79 | a node unlinked through its own list node: its key leaves the list its tag names, and it is then in none of the four |
| ArcCache.ArcCache.PushFront | cache-engine/internal/cache/arc/arc.go:139-140 | a node in no list gets tag, value and list node together; its key is in front of that list, all other lists untouched |
| ArcCache.ArcCache.Revive | cache-engine/internal/cache/arc/arc.go:171-206 | a ghost comes back to life: target adapted, another entry perhaps displaced, and the node in hand still the one the map has |
| ArcCache.ArcCache.Replace | cache-engine/internal/cache/arc/arc.go:82-109 | the linked nodes change and the callback is told as the replacement on key lists says; the map keeps its nodes, stored bytes stay those of live values |
| ArcCache.ArcCache.MakeRoom | cache-engine/internal/cache/arc/arc.go:208-246 | the four ways of making room, and what they report |
| ArcCache.ArcCache.Get | cache-engine/internal/cache/arc/arc.go:112-144 | the linked structure answers and changes as the specification: ghost and absent keys miss, an expired entry goes, a hit moves to the front of T2; bounds and bytes kept |
| ArcCache.ArcCache.Set | cache-engine/internal/cache/arc/arc.go:147-261 | the four cases, adaptation of p included; bounds and bytes kept |
| ArcCache.ArcCache.Delete | cache-engine/internal/cache/arc/arc.go:264-280 | the node is gone from list and map; a ghost counts as found |
| ArcCache.ArcCache.Peek | cache-engine/internal/cache/arc/arc.go:283-299 | lists are untouched; only an expired entry is removed |
| ArcCache.ArcCache.Purge | cache-engine/internal/cache/arc/arc.go:392-402 | four new empty lists, no nodes, p zero |
| Base64.RoundTrip | cache-engine/internal/store/codec.go:33-56 | decoding undoes encoding for every byte string, as in section 4 of RFC 4648 |
| Base64.DecodesExactly | cache-engine/internal/store/codec.go:56-59 | a text is decoded if and only if it is symbols in groups of four, the last perhaps padded, and to the bytes that are encoded as that text, but for left-over bits |
| Base64.LineBreaksIgnored | cache-engine/internal/store/codec.go:56 | line breaks do not matter, wherever they stand |
| Base64.GroupIsNumber | cache-engine/internal/store/codec.go:33 | the four symbols of a group are the base-64 digits of its three bytes read as a 24-bit number |
| Base64.TestVectors | cache-engine/internal/store/codec.go:33 | three test vectors of section 10 of RFC 4648 |
| Codec.DecimalRoundTrip | cache-engine/internal/store/codec.go:31-34 | every integer is read back from its decimal form |
| Codec.FieldsOfRender | cache-engine/internal/store/codec.go:31-51 | the fields of a written envelope are read back, whatever the number and the quote-free text |
| Codec.CanonicalExactly | cache-engine/internal/store/codec.go:46-51 | an envelope is read verbatim if and only if its number fits and its text is base64; otherwise the JSON library decides |
| Codec.EnvelopeRoundTrip | cache-engine/internal/store/codec.go:26-62 | a value with a deadline is read back with its 64-bit deadline |
| Codec.RoundTripExactly | cache-engine/internal/store/codec.go:26-62 | a value and deadline survive the store if and only if the deadline fits in 64 bits, or there is none and the value is not read as an envelope, by its form or by the JSON library |
| Codec.EnvelopeAsValueIsMisread | cache-engine/internal/store/codec.go:27-29 | any encoded envelope stored as a bare value is read as what it wraps |
| Codec.EnvelopeExample | cache-engine/internal/store/codec.go:10-42 | the stored bytes of one value with a deadline, spelled out |
| WriteThrough.WriteThroughCache.Set | cache-engine/internal/store/writethrough.go:24-41 | a failed store write changes nothing; a successful one is stored and cached with its deadline, and is what reads see from then on |
| WriteThrough.WriteThroughCache.Get | cache-engine/internal/store/writethrough.go:43-68 | in every state the answer is the live copy, else what the store has and does not regard as expired, which is then cached; with storable writes a hit is the last acknowledged value and never past its deadline, and strictly before it the value is found, whatever was evicted or purged |
| WriteThrough.TidyReads | cache-engine/internal/store/writethrough.go:43-68 | that holds of every read of a key whose copy and stored bytes are of its last write, and stays so |
| WriteThrough.WriteThroughCache.SetThenGet | cache-engine/internal/store/writethrough.go:40-46 | an acknowledged write is answered by the next read up to the end of its time to live, whether or not the store can then be reached |
| WriteThrough.WriteThroughCache.GetThenGet | cache-engine/internal/store/writethrough.go:66 | a value that was found is found again up to its deadline, even if the store is then down |
| WriteThrough.WriteThroughCache.Delete | cache-engine/internal/store/writethrough.go:70-77 | a delete that reaches the store is final, one that does not leaves the stored value |
| WriteThrough.WriteThroughCache.Purge | cache-engine/internal/store/writethrough.go:85 | no copies are left and nothing is lost |
| WriteBackCell.StepInSync | cache-engine/internal/store/writeback.go:41-176 | for every event on a key, with the store up or down: the key stays accounted for if and only if it is not a read of an exposed value, a loss of a dirty value the store lacks, or a dirty value that vanishes |
| WriteBackCell.InSyncReads | cache-engine/internal/store/writeback.go:141-166 | a key accounted for is read as last acknowledged, at any later time, if and only if no unflushed value has expired over an older live one |
| WriteBackCell.FoundIsKept | cache-engine/internal/store/writeback.go:141-166 | a read that finds something leaves it cached with the deadline it had; until then the next read answers the same, store up or down; a stored entry is found strictly before its deadline only |
| WriteBackCell.NothingFound | cache-engine/internal/store/writeback.go:156-162 | a read that finds nothing leaves no copy and deletes from the store exactly an entry at or past its deadline |
| WriteBackCell.StepReads | cache-engine/internal/store/writeback.go:41-197 | for every event (write, read, eviction, silent eviction, flush, delete, purge; store up or down) and every later time: a read is right if and only if a condition on the key before the event holds |
| WriteBack.WriteBackCache.FlushValue | cache-engine/internal/store/writeback.go:72-85 | the store gets the encoded value, or loses the key at or past its deadline; no other key changes |
| WriteBack.WriteBackCache.OnEvict | cache-engine/internal/store/writeback.go:41-54 | a dirty victim is flushed, and unmarked whether or not that works; no other key changes |
| WriteBack.WriteBackCache.Set | cache-engine/internal/store/writeback.go:125-139 | the write is cached, marked and acknowledged; every other key stays, is evicted and flushed, or vanishes if the cache is not exact and its value empty |
| WriteBack.WriteBackCache.Get | cache-engine/internal/store/writeback.go:141-166 | in every state, the answer is the live copy, else what the store has and does not regard as expired, which is then cached; the acknowledged writes do not change |
| WriteBack.WriteBackCache.Delete | cache-engine/internal/store/writeback.go:168-176 | mark and copy go, the stored value too if the store can be reached; the answer is that of the inner cache |
| WriteBack.WriteBackCache.FlushKey | cache-engine/internal/store/writeback.go:88-122 | one key is flushed, or marked again for a retry, or unmarked without a write when it has no live copy; no other key changes |
| WriteBack.WriteBackCache.FlushAll | cache-engine/internal/store/writeback.go:87-123 | the loop flushes every dirty key once, whichever of them fail |
| WriteBack.WriteBackCache.Close | cache-engine/internal/store/writeback.go:200-204 | after a flush without failures nothing is dirty and the store holds the live last write of every key accounted for |
| WriteBack.FlushStores | cache-engine/internal/store/writeback.go:72-85 | a flush that reaches the store unmarks the key and leaves its live last write there; a key at or past its deadline is deleted there |
| WriteBack.WriteBackCache.Purge | cache-engine/internal/store/writeback.go:194-197 | every key is flushed and dropped, whichever flushes fail; what that costs is StepReads for a purge |
| WriteBackRuns.Follow | cache-engine/internal/store/writeback.go:41-197 | every run, with deadlines, failures and evictions at will, is for each key a trace of events, and each read answers from the key's cell at that point |
| WriteBackRuns.RunIsTrace | cache-engine/internal/store/writeback.go:41-197 | with a clock that does not go back, those traces are the ones the trace theorems are about |
| WriteBackRuns.TraceInSync | cache-engine/internal/store/writeback.go:41-197 | since its last write, or delete that reached the store, a key is accounted for as long as no breaking event occurs |
| WriteBackRuns.TraceReads | cache-engine/internal/store/writeback.go:141-166 | and read as last acknowledged there, if and only if no unflushed value has expired over an older live one |
| WriteBackRuns.NewIsSettled | cache-engine/internal/store/writeback.go:30-57 | a new cache meets what Replay asks of the start |
| WriteBackRuns.Replay | cache-engine/internal/store/writeback.go:87-197 | in every run without time to live, with flushes failing at will and any evictions, all answers are those of a plain map; over ARC, if no empty value is written |
| WriteBackRuns.ExpiryUncoversOlder | cache-engine/internal/store/writeback.go:141-165 | a run (write, flush, write with a deadline, read later) that answers the older value in place of the expired last write |
| WriteBackRuns.FailedFlushKeepsOlder | cache-engine/internal/store/writeback.go:99-108 | a run in which the flush of an expired key fails: the mark is gone, later flushes do nothing, the older value is read |
| WriteBackRuns.VanishedIsLost | cache-engine/internal/store/writeback.go:98-108 | a dirty value evicted without a word is not brought back by the next flush; reads are wrong exactly when the store alone disagrees |
| WriteBackRuns.SilentLoss | cache-engine/internal/store/writeback.go:98-108 | for one, an acknowledged empty value is gone |
| Coherence.StepCoherent | cache-engine/internal/coherence/coordinator.go:43-84 | one step keeps every stale copy's invalidation queued, in hand or unpublished, unless a needed event is dropped |
| Coherence.PublishCoherentExactly | cache-engine/internal/coherence/bus.go:55-69 | a publication keeps that if and only if it does not drop a needed event |
| Coherence.RunCoherent | cache-engine/internal/coherence/coordinator.go:43-84 | so does every interleaving in which no needed event is dropped |
| Coherence.QuietIsCoherent | cache-engine/internal/coherence/coordinator.go:71-84 | once all is handled, every surviving copy is of the globally latest write |
| Coherence.CopiesStay | cache-engine/internal/coherence/coordinator.go:43-84 | a copy leaves a node if and only if the node loses that copy or handles an invalidation of that key, and changes only when the node writes the key |
| Coherence.InHandIsForeign | cache-engine/internal/coherence/coordinator.go:50-66 | a node invalidates only on account of the writes of others |
| Coherence.OverflowLeavesStaleCopy | cache-engine/internal/coherence/bus.go:62-67 | a run with a hundred unhandled events leaves a stale copy that nothing will invalidate |
| TtlHeap.RootIsEarliest | cache-engine/internal/ttl/wheel.go:103-105 | the first entry of an ordered heap is due no later than any other |
| TtlHeap.UpStep | cache-engine/internal/ttl/wheel.go:18-23 | a step of sifting up moves the one possible violation of heap order up |
| TtlHeap.DownStep | cache-engine/internal/ttl/wheel.go:18-23 | a step of sifting down moves the possible violations below the entry down |
| TtlHeap.Wheel.Swap | cache-engine/internal/ttl/wheel.go:19-23 | two entries change places, their indices follow, the key index stays a bijection |
| TtlHeap.Wheel.RemoveAt | cache-engine/internal/ttl/wheel.go:71-73 | the entry at a position and its key are gone; the rest is an ordered, indexed heap |
| TtlHeap.Wheel.Schedule | cache-engine/internal/ttl/wheel.go:64-78 | the key's deadline is now plus ttl, all others as before; a ttl of zero or less is ignored |
| TtlHeap.Wheel.Cancel | cache-engine/internal/ttl/wheel.go:88-95 | the key has no deadline, all others as before |
| TtlHeap.Wheel.ExpireDue | cache-engine/internal/ttl/wheel.go:129-137 | the loop ends having removed exactly the entries due, each once, in nondecreasing deadline order |
| WheelProtocol.StepSafe | cache-engine/internal/ttl/wheel.go:64-143 | every step of callers and loop keeps: a stale timer means a token is buffered or a send is coming |
| WheelProtocol.NoLostWakeup | cache-engine/internal/ttl/wheel.go:64-128 | so it holds in every state of every interleaving |
| WheelProtocol.DueAsScheduled | cache-engine/internal/ttl/wheel.go:64-137 | in every run a key is due when its latest schedule says, until it is cancelled or the loop fires at or past that time |
| WheelProtocol.IdleHour | cache-engine/internal/ttl/wheel.go:101-110 | with nothing scheduled the loop sleeps for an hour |
| WheelProtocol.QuietTimerIsTimely | cache-engine/internal/ttl/wheel.go:101-120 | blocked with no wake-up on its way, the timer fires no later than any scheduled deadline plus the time from looking to arming, or when armed if the deadline had passed at the look |
| WheelProtocol.ExpiryIsTimely | cache-engine/internal/ttl/wheel.go:101-137 | if nothing is scheduled until the timer goes off, exactly the due entries are removed, each at most that much plus the timer's own lateness after its deadline |
| WheelProtocol.TrafficStarvesExpiry | cache-engine/internal/ttl/wheel.go:122-127 | while another key keeps being scheduled there is no bound: for every n a run in which an entry due at 1 is still there at 5 + n |
| WheelProtocol.StaleIsNotStuck | cache-engine/internal/ttl/wheel.go:80-127 | a blocked loop with a stale timer always has a send or the token to go ahead with |
| Sharded.OneByteKeysReach | cache-engine/internal/cache/sharded/sharded.go:40-44 | for every shard there is a one-byte key whose FNV-1a hash selects it |
| Sharded.OneByteApart | cache-engine/internal/cache/sharded/sharded.go:40-44 | two keys of the same length that differ in exactly one byte, wherever it stands, are in different shards |
| Sharded.PublishedHashes | cache-engine/internal/cache/sharded/sharded.go:41-43 | published values of 32-bit FNV-1a, up to `foobar` |
| Sharded.PerShardIs | cache-engine/internal/cache/sharded/sharded.go:28-32 | the capacity of a shard is the largest whose 256-fold is within the total, or one |
| Sharded.ShardsAreIndependent | cache-engine/internal/cache/sharded/sharded.go:46-72 | for any policy and any run, a shard's state is that of one cache fed exactly the calls that hash to it |
| Sharded.LenBound | cache-engine/internal/cache/sharded/sharded.go:85-94 | for shards of any sound policy the total size never exceeds 256 times the per-shard capacity |
| Sharded.CapacityRespectedExactly | cache-engine/internal/cache/sharded/sharded.go:28-38 | for any sound policy the size stays within the total capacity in all runs if and only if that capacity is at least 256 |
| Sharded.ShardsHoldDisjointKeys | cache-engine/internal/cache/sharded/sharded.go:74-83 | for any sound policy no key is ever held by two shards |
| ShardedContract.SumsAreWhole | cache-engine/internal/cache/sharded/sharded.go:85-116 | sizes and stored bytes summed over the shards are those of the whole: nothing is counted twice |
| ShardedContract.IsPolicy | cache-engine/internal/cache/sharded/sharded.go:46-154 | sharding any sound policy gives a sound policy of 256 times the capacity, and an exact one an exact one |
| ShardedInstances.AllCanBeSharded | cache-engine/internal/cache/sharded/sharded.go:26-38 | LRU, LFU and ARC can all be sharded |
| ShardedInstances.CapacityOfEach | cache-engine/internal/cache/sharded/sharded.go:26-38 | each of them keeps to its advertised capacity in all runs if and only if that is at least 256 |
| ShardedCache.ShardedCache.Dispatch | cache-engine/internal/cache/sharded/sharded.go:46-72 | a keyed call changes its own shard only; answer, contents and eviction report are those of one call on the whole |
| ShardedCache.ShardedCache.Delete | cache-engine/internal/cache/sharded/sharded.go:60-65 | the key is gone from the whole; whatever was held is found, and nothing else by an exact policy |
| ShardedCache.ShardedCache.Purge | cache-engine/internal/cache/sharded/sharded.go:135-142 | the loop empties every shard |
| ShardedCache.ShardedCache.Len | cache-engine/internal/cache/sharded/sharded.go:85-94 | the loop counts the entries of the whole, within capacity when that is at least 256 |
| ShardedCache.ShardedCache.BytesStored | cache-engine/internal/cache/sharded/sharded.go:98-116 | the stored bytes summed over the shards are those of all values held |
| ShardedContract.MeetsContract | cache-engine/internal/cache/sharded/sharded.go:46-154 | for any sound policy, a call on the sharded cache as a whole meets the cache contract, reports included |
| RateLimit.MemoryRateLimiter.Allow | cache-engine/api/rate_limiter.go:28-47 | the request is counted in its window, windows that are over are swept by the loop, and it is granted if the count is within the limit |
| RateLimit.SweepUnnoticed | cache-engine/api/rate_limiter.go:38-42 | with a clock that does not go back the sweep never changes a count or a decision |
| RateLimit.RunWindowed | cache-engine/api/rate_limiter.go:32-37 | in every run a client's windows are disjoint and none has more grants than the limit |
| RateLimit.MemoryGrantsExactly | cache-engine/api/rate_limiter.go:28-47 | in every run a request is granted if and only if fewer than the limit of its client's requests came before it in its window, windows and requests told from the run alone |
| RateLimit.RetryAfterExactly | cache-engine/api/rate_limiter.go:43-45 | a refused client is granted its next request if and only if it waits longer than it was told to |
| RateLimit.MemoryBound | cache-engine/api/rate_limiter.go:28-47 | any interval as long as the window contains at most 2*limit-1 grants of a client |
| RateLimit.SqliteRateLimiter.Allow | cache-engine/api/rate_limiter.go:79-106 | the row of the aligned window is counted and old rows swept; a failed transaction changes and grants nothing; a refused client is told to wait until exactly the next window |
| RateLimit.RowSweepUnnoticed | cache-engine/api/rate_limiter.go:98 | deleting old rows never changes a later count |
| RateLimit.RowGrantsExactly | cache-engine/api/rate_limiter.go:79-106 | in every run, whichever transactions and sweeps fail, a request is granted if and only if it commits and fewer than the limit of its client's requests committed before it in its row |
| RateLimit.WindowGrantsExactly | cache-engine/api/rate_limiter.go:79-106 | for windows of a millisecond or more that is: before it in its aligned window |
| RateLimit.RowGrantsCount | cache-engine/api/rate_limiter.go:92-104 | a row has as many grants as committed requests, up to the limit |
| RateLimit.ShortWindowsShare | cache-engine/api/rate_limiter.go:97 | windows shorter than a millisecond that start in the same one share a row |
| RateLimit.SweepKeepsTwo | cache-engine/api/rate_limiter.go:98 | the sweep keeps the rows of the current window and the two before it, and no older ones |
| RateLimit.SqliteBound | cache-engine/api/rate_limiter.go:79-106 | any interval as long as the window contains at most 2*limit grants, whichever transactions and sweeps fail |
| WindowedStats.WindowedStats.constructor | cache-engine/internal/stats/window.go:26-37 | sixty empty buckets |
| WindowedStats.WindowedStats.Advance | cache-engine/internal/stats/window.go:42-46 | a tick appends an empty second to the history the ring stands for |
| WindowedStats.WindowedStats.Record | cache-engine/internal/stats/window.go:54-65 | an operation is counted in the current second of the history |
| WindowedStats.WindowedStats.Series | cache-engine/internal/stats/window.go:68-80 | the last n seconds of the unbounded history, oldest first, at most sixty, all indices in range |
| WindowedStats.SeriesCountsRecords | cache-engine/internal/stats/window.go:54-80 | the last n buckets count exactly the operations recorded in those seconds |
| WindowedStats.BucketsCarryTimes | cache-engine/internal/stats/window.go:39-46 | every bucket carries the time of the tick that began its second |

## Left out

- WriteBackRuns.Replay: covers runs without deadlines whose eviction writes and deletes reach the store; for all other runs the exact statements are those on traces, because their answers are not always those of a plain map.
- WriteBackRuns.TraceReads: says nothing of a key between a breaking event and its next repair, except what StepReads says of the first such event.
- InnerCache.InnerCache.Delete: an inexact cache may answer true for a key it does not hold, because ARC does so for ghosts.
- ArcCache.ArcCache.Insert: a new node is put into the map before it is linked, the source does it after; nothing can see the difference under the lock.
- LfuCache.LfuCache.Insert: likewise.
- Counters other than stored bytes (hits, misses, sets, evictions and so on), hit counts and creation times: they feed displays only. ARC counts an eviction even when a replacement evicts nothing.
- Interleavings inside one cache, write-policy or limiter call, and the memory model behind mutexes and atomics.
- Update and flush events of the bus, which nothing publishes, and closing of the coordinator.
- Rates and snapshots, Snapshot truncation of the sharded cache, and key listings of LFU and ARC in map iteration order.
- Overflow of 64-bit durations and counters; only the stored deadline is wrapped to 64 bits.
- Write-around and switching of write policies, several wrappers over one store, the SQLite and in-memory stores themselves, simulated latency.
- HTTP handlers, authentication, metrics, tracing, configuration, benchmarks, the web interface and deployment.
