# Cache policies of tyan-cache-101, modelled in Dafny

tyan-cache-101 is a tutorial about caching in Java. Each policy it teaches is a
demo method that configures a library: a JDK `LinkedHashMap`, a Caffeine cache
or a Redis server reached through Jedis. This project writes down, as pure
state transitions, the library behaviour those demos rely on, and proves both
general properties of it and the outcomes each demo claims.

- `common.dfy` (`Common`): `Option` for a Java reference that may be null,
  string keys and values, a `Table` for a `Map<String, String>`, and the
  database write shared by both demo classes.
- `replacement_policy.dfy` (`ReplacementPolicy`): a `LinkedHashMap` whose
  `removeEldestEntry` answers `size() > 3`. It is kept as an entry list
  (eldest first) plus a table. Access order gives the LRU cache; insertion
  order gives the FIFO cache.
- `write_policy.dfy` (`WritePolicy`): write-through, write-around with its
  loading read, write-behind (a pending map drained by a flush step) and
  write-back (the database is written by the removal listener on eviction).
  All of these act on one store of cache, database and pending writes.
- `invalidation_strategy.dfy` (`InvalidationStrategy`): a Caffeine cache with
  `invalidate`, `invalidateAll`, expire-after-write against an explicit clock,
  a loader that may answer null, and `refresh`. A reload is started by one
  step and lands in a later one.
- `redis_policies.dfy` (`RedisPolicies`): Redis as a map from key to value
  and optional expiry time in milliseconds. It covers:
  - GET, SET, SET NX EX, SET XX, SETEX, DEL, EXISTS and KEYS on a prefix;
  - the token lock with its compare-and-delete release script;
  - the ban of `user:cache:*`;
  - the cache-aside read;
  - write-through, write-around and write-behind over Redis;
  - the pipelined counter whose final value is written back.

Time is an explicit integer parameter in milliseconds. Sleeps and scheduled
executors become explicit steps: the write-behind flush, the scheduled
database write, the landing of a refresh and an eviction chosen by the cache.

The contracts are written in terms of a few lookups, which are definitions
rather than claims: `Common.Find` (`Map.get`), `RedisPolicies.Get` (GET),
`RedisPolicies.MatchingKeys` (the reply of `KEYS prefix*`),
`ReplacementPolicy.Newest` (the last n elements of a sequence, against which
the FIFO map is compared),
`InvalidationStrategy.GetIfPresent` (`getIfPresent`) and
`InvalidationStrategy.DemoLoader` (the refresh demo's loader lambda). The
expiry boundaries they rest on are stated as lemmas in the table below.

## Model

| member | source | states |
|---|---|---|
| `Common.DbWrite` | src/main/java/singlenode/CacheWritePolicyDemo.java:226-233 | The database write stores the value under the key and leaves every other key as it was. |
| `ReplacementPolicy.Empty` | src/main/java/singlenode/CacheReplacementPolicyDemo.java:32 | A new map is well formed, empty and has the requested ordering. |
| `ReplacementPolicy.Without` | src/main/java/singlenode/CacheReplacementPolicyDemo.java:32 | Unlinking an entry removes exactly that key, keeps the list duplicate-free and shortens it by one when the key was linked. |
| `ReplacementPolicy.WithoutKeepsOrder` | src/main/java/singlenode/CacheReplacementPolicyDemo.java:32 | Unlinking acts on each part of a split list separately and keeps every other key, so the others keep their relative order. |
| `ReplacementPolicy.MoveToEnd` | src/main/java/singlenode/CacheReplacementPolicyDemo.java:32 | An access relinks the key at the most-recent end without changing any value or the size. |
| `ReplacementPolicy.MoveToEndKeepsOthersInOrder` | src/main/java/singlenode/CacheReplacementPolicyDemo.java:32 | In front of the relinked key, the other keys are the list with the key unlinked, in their old relative order. |
| `ReplacementPolicy.RemoveEldest` | src/main/java/singlenode/CacheReplacementPolicyDemo.java:34-35 | Removing the eldest drops the head of the list and exactly that key's entry. |
| `ReplacementPolicy.Get` | src/main/java/singlenode/CacheReplacementPolicyDemo.java:32-48 | `get` returns the stored value or null and changes no value. A hit moves the key to the tail in access order only; a FIFO map keeps its order. |
| `ReplacementPolicy.Overwrite` | src/main/java/singlenode/CacheReplacementPolicyDemo.java:32 | A put of a resident key replaces its value; in access order it becomes most recent, and in insertion order the list is unchanged. |
| `ReplacementPolicy.Link` | src/main/java/singlenode/CacheReplacementPolicyDemo.java:40-42 | A new key is linked at the tail with its value. |
| `ReplacementPolicy.Insert` | src/main/java/singlenode/CacheReplacementPolicyDemo.java:32-37 | Inserting a new key evicts the eldest exactly when the map already held three entries, and never otherwise. |
| `ReplacementPolicy.Put` | src/main/java/singlenode/CacheReplacementPolicyDemo.java:32-37 | After any put the key maps to the new value, the map stays well formed and a map within the bound of three stays within it. |
| `ReplacementPolicy.PutIntoFullEvictsEldest` | src/main/java/singlenode/CacheReplacementPolicyDemo.java:34-35 | A new key put into a full map removes exactly one key, the eldest, and every other entry keeps its value. |
| `ReplacementPolicy.Step` | src/main/java/singlenode/CacheReplacementPolicyDemo.java:27-54 | The key list after one put or get, for each case: hit or miss, access or insertion order, with or without room. |
| `ReplacementPolicy.Run` | src/main/java/singlenode/CacheReplacementPolicyDemo.java:32-37 | Any sequence of calls from a fresh map leaves it well formed with at most three entries. |
| `ReplacementPolicy.LastUse` | src/main/java/singlenode/CacheReplacementPolicyDemo.java:45-47 | The reference notion of recency: the last call naming the key, with no later call naming it. |
| `ReplacementPolicy.WithoutKeepsRecencyOrder` | src/main/java/singlenode/CacheReplacementPolicyDemo.java:32 | Unlinking a key keeps a recency-ordered list ordered. |
| `ReplacementPolicy.ConsKeepsRecencyOrder` | src/main/java/singlenode/CacheReplacementPolicyDemo.java:32 | Keeping the head in front of an ordered part of the tail keeps the order. |
| `ReplacementPolicy.AppendLatestKeepsRecencyOrder` | src/main/java/singlenode/CacheReplacementPolicyDemo.java:32 | Linking the key the latest call named at the tail keeps the order. |
| `ReplacementPolicy.DropEldestKeepsRecencyOrder` | src/main/java/singlenode/CacheReplacementPolicyDemo.java:34-35 | Evicting the head keeps the order. |
| `ReplacementPolicy.UnnamedKeepsRecencyOrder` | src/main/java/singlenode/CacheReplacementPolicyDemo.java:32 | A call that names another key does not disturb the order of the rest. |
| `ReplacementPolicy.LruIsRecencyOrdered` | src/main/java/singlenode/CacheReplacementPolicyDemo.java:32-37 | After any calls, the LRU entry list runs from least to most recently used. |
| `ReplacementPolicy.LruEvictsLeastRecentlyUsed` | src/main/java/singlenode/CacheReplacementPolicyDemo.java:32-52 | When a new key overflows the LRU map, the evicted key is the resident key whose last use is oldest. |
| `ReplacementPolicy.PutKeys` | src/main/java/singlenode/CacheReplacementPolicyDemo.java:146-163 | The inserted keys are exactly the keys of the puts among the calls. |
| `ReplacementPolicy.PutKeysOfPrefix` | src/main/java/singlenode/CacheReplacementPolicyDemo.java:146-163 | Dropping the last call drops at most its put key; distinctness carries over to the prefix. |
| `ReplacementPolicy.FifoInsertKeepsNewest` | src/main/java/singlenode/CacheReplacementPolicyDemo.java:136-140 | Inserting a never-seen key into a FIFO map that holds the newest insertions keeps it holding the newest insertions. |
| `ReplacementPolicy.FifoKeepsNewestInserts` | src/main/java/singlenode/CacheReplacementPolicyDemo.java:133-164 | With distinct inserted keys, the FIFO map holds exactly the three newest insertions, oldest first, whatever gets happened in between. |
| `ReplacementPolicy.PutIntoRoomAppends` | src/main/java/singlenode/CacheReplacementPolicyDemo.java:40-42 | A new key put into a map with room is linked at the tail and nothing is evicted. |
| `ReplacementPolicy.FillThree` | src/main/java/singlenode/CacheReplacementPolicyDemo.java:40-43 | Three puts of distinct keys list them in put order with their values. |
| `ReplacementPolicy.GetEldestMovesToEnd` | src/main/java/singlenode/CacheReplacementPolicyDemo.java:46-47 | A hit on the eldest key of an LRU map moves it to the tail and changes no value. |
| `ReplacementPolicy.LruTraceEviction` | src/main/java/singlenode/CacheReplacementPolicyDemo.java:50-52 | With the order c, a, b, putting d evicts c and leaves a, b, d with their values. |
| `ReplacementPolicy.LruTrace` | src/main/java/singlenode/CacheReplacementPolicyDemo.java:40-52 | For any four distinct keys: fill a, b, c; get a and b; the order is c, a, b; putting d evicts c. |
| `ReplacementPolicy.LruDemoTrace` | src/main/java/singlenode/CacheReplacementPolicyDemo.java:40-52 | The demo's LRU run: get A returns ValueA, the order becomes C, A, B, and putting D leaves A, B, D with their values. |
| `ReplacementPolicy.PutIntoFullShifts` | src/main/java/singlenode/CacheReplacementPolicyDemo.java:34-35 | A new key put into a full map shifts the three-entry list by one and drops the eldest's value. |
| `ReplacementPolicy.FifoTraceEvictions` | src/main/java/singlenode/CacheReplacementPolicyDemo.java:156-164 | Two new keys put into a full FIFO map evict the two eldest insertions in turn, with the survivors' values kept. |
| `ReplacementPolicy.FifoTrace` | src/main/java/singlenode/CacheReplacementPolicyDemo.java:146-164 | For any five distinct keys: fill p, q, r; two gets of q change nothing; s evicts p and t evicts q, and the survivors keep their values. |
| `ReplacementPolicy.FifoDemoTrace` | src/main/java/singlenode/CacheReplacementPolicyDemo.java:146-164 | The demo's FIFO run: P, Q, R; the gets leave the map as it was; then Q, R, S; then R, S, T, each with its value. |
| `WritePolicy.WriteThrough` | src/main/java/singlenode/CacheWritePolicyDemo.java:58-60 | Cache and database both hold the value afterwards, no other key changes, and coherence is preserved. |
| `WritePolicy.WriteAround` | src/main/java/singlenode/CacheWritePolicyDemo.java:88-90 | Only the database changes. A coherent store stays coherent exactly when the cache held no other value for the key. |
| `WritePolicy.ReadThrough` | src/main/java/singlenode/CacheWritePolicyDemo.java:96-97 | A hit answers from the cache. A miss answers the database value and caches it when it is not null. The answer is what the cache then holds, and coherence is preserved. |
| `WritePolicy.WriteBehind` | src/main/java/singlenode/CacheWritePolicyDemo.java:138-140 | The cache and the pending entry get the value (last write wins), the database is untouched, and no accepted write is lost. |
| `WritePolicy.Flush` | src/main/java/singlenode/CacheWritePolicyDemo.java:119-127 | With pending writes, each reaches the database and the pending map empties; with none, nothing happens. When no accepted write was lost, the cache afterwards agrees with the database. |
| `WritePolicy.DrainPending` | src/main/java/singlenode/CacheWritePolicyDemo.java:122-126 | The loop over the pending entries gives every pending key its pending value whatever the order, and equals the flush's outcome. |
| `WritePolicy.WasEvictedExactlyAutomatic` | src/main/java/singlenode/CacheWritePolicyDemo.java:179 | `wasEvicted` holds exactly for the collected, expired and size causes, and fails exactly for an explicit removal or a replacement. |
| `WritePolicy.OnRemoval` | src/main/java/singlenode/CacheWritePolicyDemo.java:178-183 | The listener writes only for an eviction cause with a non-null value, and then writes exactly that key and value. |
| `WritePolicy.WriteBackPut` | src/main/java/singlenode/CacheWritePolicyDemo.java:196 | A put changes only the cache: a replaced value is not an eviction, so the database is untouched. |
| `WritePolicy.WriteBackEvict` | src/main/java/singlenode/CacheWritePolicyDemo.java:175-183 | Evicting a resident victim removes it and writes its value to the database once; evicting a non-resident key does nothing. |
| `WritePolicy.WriteBackKeepsResidentKeysOutOfDatabase` | src/main/java/singlenode/CacheWritePolicyDemo.java:173-222 | Over any puts and evictions in which no put names a key the database held or an earlier victim, no key still cached is in the database; resident keys may be overwritten freely. |
| `WritePolicy.WriteThroughDemo` | src/main/java/singlenode/CacheWritePolicyDemo.java:52-65 | After the demo write, cache and database both hold "John Doe" for user:123. |
| `WritePolicy.WriteAroundDemo` | src/main/java/singlenode/CacheWritePolicyDemo.java:83-98 | The cache misses after the write; the loading read returns and caches "Temporary Data". |
| `WritePolicy.WriteBehindDemoFlush` | src/main/java/singlenode/CacheWritePolicyDemo.java:119-127 | Flushing the demo's pending map stores each order's last value and empties the map. |
| `WritePolicy.WriteBehindDemo` | src/main/java/singlenode/CacheWritePolicyDemo.java:131-154 | Five writes leave three pending entries and an empty database. The flush then stores "Order A Final", "Order B" and "Order C". |
| `WritePolicy.WriteBackStepKeepsCacheOnly` | src/main/java/singlenode/CacheWritePolicyDemo.java:178-183 | A write-back step keeps resident keys out of the database unless it puts a key the database holds. |
| `WritePolicy.WriteBackPutNewKey` | src/main/java/singlenode/CacheWritePolicyDemo.java:196 | A put of a new key adds one cache entry and writes nothing. |
| `WritePolicy.WriteBackEvictResident` | src/main/java/singlenode/CacheWritePolicyDemo.java:178-183 | Evicting a resident key moves one entry from the cache to the database. |
| `WritePolicy.WriteBackFill` | src/main/java/singlenode/CacheWritePolicyDemo.java:189-196 | Three puts of distinct keys give a cache of three and an empty database. |
| `WritePolicy.WriteBackRound` | src/main/java/singlenode/CacheWritePolicyDemo.java:191-203 | A put of a new key followed by an eviction keeps resident keys out of the database, and moves one entry over when the victim was resident. |
| `WritePolicy.WriteBackTwoRounds` | src/main/java/singlenode/CacheWritePolicyDemo.java:191-210 | Two such rounds from a full cache end with three cached keys and two written ones when both victims were resident. |
| `WritePolicy.WriteBackTrace` | src/main/java/singlenode/CacheWritePolicyDemo.java:189-222 | Five distinct keys with two evictions: no cached key is in the database, and the sizes end at three and two. |
| `WritePolicy.WriteBackDemo` | src/main/java/singlenode/CacheWritePolicyDemo.java:189-222 | For the demo's keys cache:1 to cache:5 and whatever victims the cache picks, no key still cached is in the database; when both victims were resident, three keys stay cached and two were written. |
| `InvalidationStrategy.ExpiresExactlyAfterDuration` | src/main/java/singlenode/CacheInvalidationStrategyDemo.java:55 | Without a duration an entry never expires; with duration d it is live strictly before its write time plus d and expired from that instant on. |
| `InvalidationStrategy.AbsentStaysAbsent` | src/main/java/singlenode/CacheInvalidationStrategyDemo.java:55 | Without a write, an entry that is absent or expired stays so at every later time, and a present one answers the same value at every earlier time. |
| `InvalidationStrategy.Put` | src/main/java/singlenode/CacheInvalidationStrategyDemo.java:53-69 | A put makes the key answer the value until the expire-after-write duration has passed and not after. Other keys are unaffected and a reload in flight is discarded. |
| `InvalidationStrategy.Invalidate` | src/main/java/singlenode/CacheInvalidationStrategyDemo.java:29-37 | The key is absent at every time and every other key answers as before. |
| `InvalidationStrategy.InvalidateAll` | src/main/java/singlenode/CacheInvalidationStrategyDemo.java:39-44 | Every key is absent at every time. |
| `InvalidationStrategy.Get` | src/main/java/singlenode/CacheInvalidationStrategyDemo.java:53-91 | A live entry is returned without loading. Otherwise the loader's answer is returned: a value is cached, while null caches nothing and leaves the key absent. |
| `InvalidationStrategy.Refresh` | src/main/java/singlenode/CacheInvalidationStrategyDemo.java:76-79 | Starting a refresh changes no answer, so the old value is returned until the reload lands; it records the answer the key gave at the start, and a refresh already in flight is kept. |
| `InvalidationStrategy.RefreshLands` | src/main/java/singlenode/CacheInvalidationStrategyDemo.java:56-77 | A landing reload replaces the value, or removes the key on null, only while the key still gives the answer recorded at the start. A reload discarded by a put or invalidate changes nothing, and one whose entry has since expired is dropped without touching the entries. |
| `InvalidationStrategy.ReloadOfExpiredEntryIsDiscarded` | src/main/java/singlenode/CacheInvalidationStrategyDemo.java:55-77 | A refresh started while the entry was live and landing after it expired is discarded: the key stays absent whatever the loader answered. |
| `InvalidationStrategy.PurgeDemo` | src/main/java/singlenode/CacheInvalidationStrategyDemo.java:20-44 | key1 answers value1. After invalidate(key1), key1 is absent while key2 and key3 keep their values; after invalidateAll all are absent. |
| `InvalidationStrategy.RefreshDemo` | src/main/java/singlenode/CacheInvalidationStrategyDemo.java:53-91 | A still answers "A" right after refresh, and the reload landing within a second installs the loader's value. Four seconds later everything has expired: get(B) yields null and stores nothing, and get(A) loads and caches a fresh value. |
| `RedisPolicies.LiveExactlyUntilExpiry` | src/main/java/distributed/RedisCachePoliciesDemo.java:220 | A key without TTL is live at every instant, one with expiry time e exactly up to and including e, and a missing key never. |
| `RedisPolicies.ExpiredKeyStaysGone` | src/main/java/distributed/RedisCachePoliciesDemo.java:220-226 | Without a write, a key GET misses stays missing later, and a key GET finds answered the same value earlier. |
| `RedisPolicies.Set` | src/main/java/distributed/RedisCachePoliciesDemo.java:258-264 | SET makes the key answer the value at every time, dropping any TTL; other keys are unaffected. |
| `RedisPolicies.SetEx` | src/main/java/distributed/RedisCachePoliciesDemo.java:220 | SETEX with a positive expire time makes the key answer the value up to the expiry instant and not after; an expire time of 0 is rejected with an error and stores nothing. |
| `RedisPolicies.AcquireLock` | src/main/java/distributed/RedisCachePoliciesDemo.java:288-293 | SET NX EX 5 succeeds exactly when the lock key is missing or expired, then stores the caller's token for five seconds; a failed attempt changes nothing. |
| `RedisPolicies.ReleaseLock` | src/main/java/distributed/RedisCachePoliciesDemo.java:303-306 | The script answers 1 and deletes the lock exactly when the live value is the caller's token; otherwise it answers 0 and changes nothing. |
| `RedisPolicies.LockIsExclusive` | src/main/java/distributed/RedisCachePoliciesDemo.java:288-306 | During the lease no other caller acquires the lock, and another token cannot release it. |
| `RedisPolicies.OwnerReleaseFreesLock` | src/main/java/distributed/RedisCachePoliciesDemo.java:292-306 | The owner's release within the lease answers 1, and anyone can acquire the lock afterwards. |
| `RedisPolicies.LockLeaseExpires` | src/main/java/distributed/RedisCachePoliciesDemo.java:292 | A lock never released can be acquired by anyone once its five-second lease is over. |
| `RedisPolicies.Del` | src/main/java/distributed/RedisCachePoliciesDemo.java:237 | DEL answers the number of distinct live keys named and removes exactly the named keys. |
| `RedisPolicies.LiveAmongFirst` | src/main/java/distributed/RedisCachePoliciesDemo.java:237 | The DEL count splits into the first named key and the rest. |
| `RedisPolicies.DelRemovesExactlyNamedKeys` | src/main/java/distributed/RedisCachePoliciesDemo.java:237-239 | After DEL the named keys are absent at every time and the others answer as before. |
| `RedisPolicies.Exists` | src/main/java/distributed/RedisCachePoliciesDemo.java:235-239 | EXISTS answers the number of argument positions that name a live key, so a key named twice counts twice; hence all of them exactly when every one is live, and 0 exactly when none is. |
| `RedisPolicies.LivePositionsOfPrefix` | src/main/java/distributed/RedisCachePoliciesDemo.java:235-239 | The live positions of an argument list are those of all but its last argument, plus the last when it is live. |
| `RedisPolicies.Ban` | src/main/java/distributed/RedisCachePoliciesDemo.java:248-251 | The ban answers the number of matching keys; those are gone, every other key answers as before, and nothing happens when none match. |
| `RedisPolicies.BanIsDelOfMatches` | src/main/java/distributed/RedisCachePoliciesDemo.java:248-250 | The ban equals DEL of the keys KEYS returned, in any order. |
| `RedisPolicies.SetIfExists` | src/main/java/distributed/RedisCachePoliciesDemo.java:266-273 | SET XX succeeds and overwrites exactly when the key is live; otherwise it answers nil and changes nothing. |
| `RedisPolicies.CacheAsideRead` | src/main/java/distributed/RedisCachePoliciesDemo.java:114-121 | A hit is returned as is. A miss returns the database value and caches it when it is not null; a null leaves the cache unchanged. |
| `RedisPolicies.CacheAsideReadSettles` | src/main/java/distributed/RedisCachePoliciesDemo.java:114-123 | A second read right after the first returns the same value and changes nothing. |
| `RedisPolicies.WriteThrough` | src/main/java/distributed/RedisCachePoliciesDemo.java:77-87 | After SET plus the database write, the cache value equals the database value at every time. |
| `RedisPolicies.Pipeline` | src/main/java/distributed/RedisCachePoliciesDemo.java:181-186 | Pipelined SETs to one key leave the last value, with no TTL, and touch no other key. |
| `RedisPolicies.NatToString` | src/main/java/distributed/RedisCachePoliciesDemo.java:183 | `String.valueOf` of a non-negative int is in canonical form: a non-empty string of decimal digits with no leading zero, starting with '0' exactly for zero. |
| `RedisPolicies.Digit` | src/main/java/distributed/RedisCachePoliciesDemo.java:183 | A digit below ten renders as a decimal digit character. |
| `RedisPolicies.ParseNatToString` | src/main/java/distributed/RedisCachePoliciesDemo.java:183 | Reading the rendered digits back gives the number. |
| `RedisPolicies.CanonicalIsRendering` | src/main/java/distributed/RedisCachePoliciesDemo.java:183 | Every canonical digit string is the rendering of the number it denotes, so rendering is a bijection onto canonical digit strings. |
| `RedisPolicies.CounterUpdates` | src/main/java/distributed/RedisCachePoliciesDemo.java:182-185 | The i-th update is the canonical decimal form of i * 100. |
| `RedisPolicies.WriteBack` | src/main/java/distributed/RedisCachePoliciesDemo.java:180-194 | After the updates the cache holds `String.valueOf(count * 100)`, the last value. The batched write gives the database exactly that value under the key, so no intermediate value reaches it. |
| `RedisPolicies.WriteBackDemo` | src/main/java/distributed/RedisCachePoliciesDemo.java:176-202 | Ten updates leave "1000" in the cache, and the database receives "1000". |
| `RedisPolicies.WriteAroundDemo` | src/main/java/distributed/RedisCachePoliciesDemo.java:106-123 | The write reaches only the database; the cache misses, and the cache-aside read loads and caches the value. |
| `RedisPolicies.WriteBehindSet` | src/main/java/distributed/RedisCachePoliciesDemo.java:142-143 | The write-behind SET makes the key answer the value at once, leaves every other key and does not touch the database. |
| `RedisPolicies.ScheduledWrite` | src/main/java/distributed/RedisCachePoliciesDemo.java:146-150 | The scheduled write stores the value in the database, frames every other database key and leaves Redis as it is. |
| `RedisPolicies.WriteBehindDemo` | src/main/java/distributed/RedisCachePoliciesDemo.java:136-159 | Right after the SET the cache answers "User Session Data" while the database answers what it had; after the scheduled write both hold the value. |
| `RedisPolicies.TtlDemo` | src/main/java/distributed/RedisCachePoliciesDemo.java:220-226 | A 3 s SETEX is visible at once and gone 3.5 s later. |
| `RedisPolicies.DelDemo` | src/main/java/distributed/RedisCachePoliciesDemo.java:233-239 | Two fresh keys: EXISTS answers 2, DEL answers 2, then EXISTS answers 0. |
| `RedisPolicies.BanDemo` | src/main/java/distributed/RedisCachePoliciesDemo.java:243-254 | The ban deletes exactly user:cache:1 and user:cache:2 (count 2), and product:cache:1 remains. |
| `RedisPolicies.SetIfExistsDemo` | src/main/java/distributed/RedisCachePoliciesDemo.java:267-273 | SET XX on the missing key fails and changes nothing; after a SET, SET XX succeeds and overwrites. |

## Left out

- The LFU and W-TinyLFU sections of the replacement demo, and the Caffeine feature demos. Caffeine picks its victim with a frequency sketch, so that choice is not modelled.
  - In the write-back model, the victim is an input and eviction is a separate step.
  - The `maximumSize` bounds of the Caffeine caches (3 in write-back, 100 elsewhere) are not enforced for the same reason.
- Concurrency. Flush, the scheduled database writes and a refresh's landing are atomic steps. No claim is made about a put that races with the iteration and `clear()` of the pending map.
- Sleeps, latencies, `System.currentTimeMillis` timings, write-time printouts, `estimatedSize`, TTL printouts and hit-rate statistics. Time is an explicit integer argument.
- The loader stamps values with the current time; that stamp is a string argument of `DemoLoader`.
- The config refresh token `"refreshed_config_" + currentTimeMillis` is any value given to `Set`.
- Pub/sub invalidation, sorted-set leaderboards and HyperLogLog counting in the Redis demo.
- General glob matching. Only the prefix pattern `user:cache:*` is modelled, so the `KEYS *cache*` listing is left out.
- `Common.DbWrite`: it always stores the value. In both demo classes the simulated write sleeps first, and when that sleep is interrupted it skips the put and re-sets the interrupt flag, so that every later simulated write on the thread is skipped as well. Thread interruption is not modelled.
- Connection handling, `flushDB`, the Jedis pool and executor lifecycle. Java `int` overflow is also left out: the counter values reach only 1000.
- `WritePolicy.WriteBackKeepsResidentKeysOutOfDatabase`: it assumes that no put names a key the database already held or a victim of an earlier eviction, as in the demo's five distinct keys. Re-putting an evicted key would leave it both cached and in the database. The assumption also excludes re-putting a victim that was not resident, which would in fact be harmless.
- `ReplacementPolicy.FifoKeepsNewestInserts`: stated only for distinct inserted keys, as in the demo. A re-put of a resident key keeps its place, and the statement does not cover that case.
- `InvalidationStrategy.RefreshDemo`: C and D are also reloaded in the final line of the demo. Their reload is the same `Get` path as A's and is not restated.
