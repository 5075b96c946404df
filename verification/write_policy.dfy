/** The four write policies of the single-node write-policy demo, as
    transitions of one state: the cache's contents, the database map and the
    write-behind `pendingWrites` map. The database write is the plain `put`
    that `simulateDbWrite` performs; scheduling and latency are not modelled,
    so the periodic flush and each eviction are explicit steps. */
module WritePolicy {
  import opened Common

  datatype Store = Store(cache: Table, database: Table, pending: Table)

  /** Every cached value is the one the database holds for that key. */
  ghost predicate Coherent(s: Store) {
    forall k :: k in s.cache ==> Find(s.database, k) == Some(s.cache[k])
  }

  /* ---------- write-through ---------- */

  /** `cache.put` then `simulateDbWrite`: both sides now hold `v` for `k`,
      nothing else changes, and a coherent store stays coherent. */
  function WriteThrough(s: Store, k: Key, v: Value): (r: Store)
    ensures Find(r.cache, k) == Some(v) && Find(r.database, k) == Some(v)
    ensures forall x :: x != k ==> Find(r.cache, x) == Find(s.cache, x)
    ensures forall x :: x != k ==> Find(r.database, x) == Find(s.database, x)
    ensures r.pending == s.pending
    ensures Coherent(s) ==> Coherent(r)
  {
    s.(cache := s.cache[k := v], database := DbWrite(s.database, k, v))
  }

  /* ---------- write-around ---------- */

  /** `simulateDbWrite` alone: the database gets `v`, the cache is bypassed.
      The store stays coherent exactly when the cache did not hold a different
      value for `k` (the cache is not invalidated). */
  function WriteAround(s: Store, k: Key, v: Value): (r: Store)
    ensures r.cache == s.cache && r.pending == s.pending
    ensures Find(r.database, k) == Some(v)
    ensures forall x :: x != k ==> Find(r.database, x) == Find(s.database, x)
    ensures Coherent(s) ==> (Coherent(r) <==> Find(s.cache, k) in {None, Some(v)})
  {
    s.(database := DbWrite(s.database, k, v))
  }

  /** `cache.get(key, k -> database.get(k))`: a hit answers from the cache; a
      miss asks the database and caches a non-null answer; a null answer
      caches nothing. What is returned is what the cache then holds, and the
      database is only read. */
  function ReadThrough(s: Store, k: Key): (r: (Option<Value>, Store))
    ensures r.0 == Find(r.1.cache, k)
    ensures k in s.cache ==> r == (Some(s.cache[k]), s)
    ensures k !in s.cache ==> r.0 == Find(s.database, k)
    ensures r.1.database == s.database && r.1.pending == s.pending
    ensures forall x :: x != k ==> Find(r.1.cache, x) == Find(s.cache, x)
    ensures Coherent(s) ==> Coherent(r.1)
  {
    if k in s.cache then (Some(s.cache[k]), s)
    else
      match Find(s.database, k)
      case Some(v) => (Some(v), s.(cache := s.cache[k := v]))
      case None => (None, s)
  }

  /* ---------- write-behind ---------- */

  /** Every cached value would reach the database if the pending writes were
      applied now: no write accepted by the cache is lost. */
  ghost predicate NothingLost(s: Store) {
    forall k :: k in s.cache ==> Find(s.database + s.pending, k) == Some(s.cache[k])
  }

  /** `cache.put` plus `pendingWrites.put`: the cache answers `v` at once, the
      pending entry for `k` is overwritten (last write wins) and the database
      is untouched. */
  function WriteBehind(s: Store, k: Key, v: Value): (r: Store)
    ensures Find(r.cache, k) == Some(v) && Find(r.pending, k) == Some(v)
    ensures r.database == s.database
    ensures forall x :: x != k ==> Find(r.cache, x) == Find(s.cache, x)
    ensures forall x :: x != k ==> Find(r.pending, x) == Find(s.pending, x)
    ensures NothingLost(s) ==> NothingLost(r)
  {
    s.(cache := s.cache[k := v], pending := s.pending[k := v])
  }

  /** One run of the scheduled task: with pending writes, each is written to
      the database and the map is cleared; with none, nothing happens. After
      a flush the cache agrees with the database on every key, provided no
      write had been lost. */
  function Flush(s: Store): (r: Store)
    ensures r.cache == s.cache && r.pending == map[]
    ensures forall k :: k in s.pending ==> Find(r.database, k) == Some(s.pending[k])
    ensures forall k :: k !in s.pending ==> Find(r.database, k) == Find(s.database, k)
    ensures |s.pending| == 0 ==> r == s
    ensures NothingLost(s) ==> Coherent(r) && NothingLost(r)
  {
    if |s.pending| == 0 then s
    else s.(database := s.database + s.pending, pending := map[])
  }

  /** The loop of the scheduled task: walk the pending entries, writing each
      one to the database. The outcome does not depend on the walk's order:
      every pending key ends with its pending value, every other key keeps
      its database value. */
  method DrainPending(database: Table, pending: Table) returns (db: Table)
    ensures forall k :: k in pending ==> Find(db, k) == Some(pending[k])
    ensures forall k :: k !in pending ==> Find(db, k) == Find(database, k)
    ensures pending != map[] ==> db == Flush(Store(map[], database, pending)).database
  {
    db := database;
    var todo := pending.Keys;
    while todo != {}
      invariant todo <= pending.Keys
      invariant forall k :: k in pending && k !in todo ==> Find(db, k) == Some(pending[k])
      invariant forall k :: k !in pending || k in todo ==> Find(db, k) == Find(database, k)
      decreases todo
    {
      var k :| k in todo;
      db := DbWrite(db, k, pending[k]);
      todo := todo - {k};
    }
    assert forall k :: k in db <==> k in database + pending by {
      forall k ensures k in db <==> k in database + pending {
        assert Find(db, k).Some? <==> k in db;
      }
    }
  }

  /* ---------- write-back ---------- */

  /** Caffeine's `RemovalCause`. */
  datatype RemovalCause = Explicit | Replaced | Collected | Expired | Size {
    /** `RemovalCause.wasEvicted`: true for the automatic removals only. */
    predicate WasEvicted() {
      match this
      case Explicit => false
      case Replaced => false
      case Collected => true
      case Expired => true
      case Size => true
    }
  }

  /** `wasEvicted` separates the automatic removals (collected, expired, over
      the size bound) from the ones a caller caused (an explicit invalidation,
      a put that replaced the value). */
  lemma WasEvictedExactlyAutomatic(cause: RemovalCause)
    ensures cause.WasEvicted() <==> cause == Collected || cause == Expired || cause == Size
    ensures !cause.WasEvicted() <==> cause == Explicit || cause == Replaced
  {
  }

  /** The write-back removal listener: it writes the removed key's value to
      the database only when the removal is an eviction and the value is not
      null, and then it writes exactly that key and value. */
  function OnRemoval(db: Table, k: Key, value: Option<Value>, cause: RemovalCause): (r: Table)
    ensures cause.WasEvicted() && value.Some? ==> Find(r, k) == value
    ensures forall x :: x != k ==> Find(r, x) == Find(db, x)
    ensures !(cause.WasEvicted() && value.Some?) ==> r == db
  {
    if cause.WasEvicted() && value.Some? then DbWrite(db, k, value.value) else db
  }

  /** A put into the write-back cache. Overwriting a resident key notifies the
      listener with cause `Replaced`, which writes nothing: the database is
      never touched by a put. */
  function WriteBackPut(s: Store, k: Key, v: Value): (r: Store)
    ensures Find(r.cache, k) == Some(v)
    ensures forall x :: x != k ==> Find(r.cache, x) == Find(s.cache, x)
    ensures r.database == s.database && r.pending == s.pending
  {
    var db := if k in s.cache then OnRemoval(s.database, k, Some(s.cache[k]), Replaced) else s.database;
    s.(cache := s.cache[k := v], database := db)
  }

  /** The size-based eviction of `victim`, which the cache's policy chooses.
      A resident victim leaves the cache and its value at eviction time is
      written to the database, once; a victim that is not resident removes
      nothing and writes nothing. */
  function WriteBackEvict(s: Store, victim: Key): (r: Store)
    ensures victim !in r.cache
    ensures forall x :: x != victim ==> Find(r.cache, x) == Find(s.cache, x)
    ensures victim in s.cache ==> Find(r.database, victim) == Some(s.cache[victim])
    ensures victim !in s.cache ==> r == s
    ensures forall x :: x != victim ==> Find(r.database, x) == Find(s.database, x)
    ensures r.pending == s.pending
  {
    s.(cache := s.cache - {victim},
       database := OnRemoval(s.database, victim, Find(s.cache, victim), Size))
  }

  /** No key the cache holds is in the database. */
  ghost predicate CacheOnly(s: Store) {
    forall k :: k in s.cache ==> k !in s.database
  }

  datatype WriteBackEvent = PutEvent(key: Key, value: Value) | EvictEvent(victim: Key)

  function WriteBackStep(s: Store, e: WriteBackEvent): Store {
    match e
    case PutEvent(k, v) => WriteBackPut(s, k, v)
    case EvictEvent(victim) => WriteBackEvict(s, victim)
  }

  function RunWriteBack(s: Store, events: seq<WriteBackEvent>): Store
    decreases |events|
  {
    if |events| == 0 then s else RunWriteBack(WriteBackStep(s, events[0]), events[1..])
  }

  /** No put in `events` names a key in `written` or a victim of an earlier
      eviction in `events`: the keys the database may hold. */
  ghost predicate NoPutAfterEviction(events: seq<WriteBackEvent>, written: set<Key>) {
    forall i :: 0 <= i < |events| && events[i].PutEvent? ==>
      && events[i].key !in written
      && (forall j :: 0 <= j < i && events[j].EvictEvent? ==> events[j].victim != events[i].key)
  }

  /** Write-back keeps resident keys out of the database, whatever the
      victims: if no key is put after it was evicted (and none is put that the
      database held before), then no key still in the cache has been written to
      the database. Overwriting a resident key is allowed any number of times. */
  lemma {:induction false} WriteBackKeepsResidentKeysOutOfDatabase(s: Store, events: seq<WriteBackEvent>)
    requires CacheOnly(s)
    requires NoPutAfterEviction(events, s.database.Keys)
    ensures CacheOnly(RunWriteBack(s, events))
    decreases |events|
  {
    if |events| > 0 {
      var e := events[0];
      var next := WriteBackStep(s, e);
      var rest := events[1..];
      WriteBackStepKeepsCacheOnly(s, e);
      assert next.database.Keys <= s.database.Keys + (if e.EvictEvent? then {e.victim} else {});
      assert NoPutAfterEviction(rest, next.database.Keys) by {
        forall i | 0 <= i < |rest| && rest[i].PutEvent?
          ensures rest[i].key !in next.database.Keys
          ensures forall j :: 0 <= j < i && rest[j].EvictEvent? ==> rest[j].victim != rest[i].key
        {
          assert rest[i] == events[i + 1];
          assert forall j :: 0 <= j < i ==> rest[j] == events[j + 1];
        }
      }
      WriteBackKeepsResidentKeysOutOfDatabase(next, rest);
    }
  }

  /* ---------- the demo traces ---------- */

  /** Each demo starts from a fresh cache and a cleared database. */
  function Fresh(): Store {
    Store(map[], map[], map[])
  }

  /** Write-through demo: afterwards cache and database both hold "John Doe". */
  lemma WriteThroughDemo()
    ensures var s := WriteThrough(Fresh(), "user:123", "John Doe");
      Find(s.cache, "user:123") == Some("John Doe") == Find(s.database, "user:123")
  {
  }

  /** Write-around demo: the cache misses after the write, and the loading
      read brings the database value into the cache. */
  lemma WriteAroundDemo()
    ensures var s := WriteAround(Fresh(), "temp:456", "Temporary Data");
      && Find(s.cache, "temp:456") == None
      && Find(s.database, "temp:456") == Some("Temporary Data")
      && ReadThrough(s, "temp:456").0 == Some("Temporary Data")
      && Find(ReadThrough(s, "temp:456").1.cache, "temp:456") == Some("Temporary Data")
  {
  }

  /** A table keyed by exactly the demo's three order keys has three entries. */
  lemma ThreeOrderKeys(t: Table)
    requires t.Keys == {"order:1", "order:2", "order:3"}
    ensures |t| == 3
  {
    assert "order:1" != "order:2" by { assert "order:1"[6] != "order:2"[6]; }
    assert "order:1" != "order:3" by { assert "order:1"[6] != "order:3"[6]; }
    assert "order:2" != "order:3" by { assert "order:2"[6] != "order:3"[6]; }
    assert |t| == |t.Keys|;
  }

  /** The flush at the end of the write-behind demo stores each key's last
      value and empties the pending map. */
  lemma WriteBehindDemoFlush(s: Store)
    requires |s.pending| == 3
    requires Find(s.pending, "order:1") == Some("Order A Final")
    requires Find(s.pending, "order:2") == Some("Order B")
    requires Find(s.pending, "order:3") == Some("Order C")
    ensures Flush(s).pending == map[]
    ensures Find(Flush(s).database, "order:1") == Some("Order A Final")
    ensures Find(Flush(s).database, "order:2") == Some("Order B")
    ensures Find(Flush(s).database, "order:3") == Some("Order C")
  {
  }

  /** Write-behind demo: five writes to three keys leave three pending entries
      and an empty database; the flush then stores each key's last value. */
  lemma WriteBehindDemo()
    ensures var s := WriteBehind(WriteBehind(WriteBehind(WriteBehind(WriteBehind(Fresh(),
        "order:1", "Order A"), "order:2", "Order B"), "order:1", "Order A Updated"),
        "order:3", "Order C"), "order:1", "Order A Final");
      && s.pending.Keys == {"order:1", "order:2", "order:3"}
      && |s.pending| == 3
      && s.database == map[]
      && Flush(s).pending == map[]
      && Find(Flush(s).database, "order:1") == Some("Order A Final")
      && Find(Flush(s).database, "order:2") == Some("Order B")
      && Find(Flush(s).database, "order:3") == Some("Order C")
  {
    var s1 := WriteBehind(Fresh(), "order:1", "Order A");
    var s2 := WriteBehind(s1, "order:2", "Order B");
    var s3 := WriteBehind(s2, "order:1", "Order A Updated");
    var s4 := WriteBehind(s3, "order:3", "Order C");
    var s := WriteBehind(s4, "order:1", "Order A Final");
    assert s.pending.Keys == {"order:1", "order:2", "order:3"};
    ThreeOrderKeys(s.pending);
    WriteBehindDemoFlush(s);
  }

  /** A write-back step keeps resident keys out of the database, unless it
      puts a key the database already holds. */
  lemma WriteBackStepKeepsCacheOnly(s: Store, e: WriteBackEvent)
    requires CacheOnly(s)
    requires e.PutEvent? ==> e.key !in s.database
    ensures CacheOnly(WriteBackStep(s, e))
  {
  }

  /** A put of a key the cache does not hold adds one entry and writes nothing. */
  lemma WriteBackPutNewKey(s: Store, k: Key, v: Value)
    requires k !in s.cache
    ensures WriteBackPut(s, k, v).cache.Keys == s.cache.Keys + {k}
    ensures |WriteBackPut(s, k, v).cache| == |s.cache| + 1
    ensures WriteBackPut(s, k, v).database == s.database
  {
  }

  /** Evicting a resident victim the database lacks moves one entry from the
      cache to the database. */
  lemma WriteBackEvictResident(s: Store, victim: Key)
    requires victim in s.cache && victim !in s.database
    ensures WriteBackEvict(s, victim).cache.Keys == s.cache.Keys - {victim}
    ensures |WriteBackEvict(s, victim).cache| == |s.cache| - 1
    ensures |WriteBackEvict(s, victim).database| == |s.database| + 1
  {
  }

  /** Three puts of distinct keys into a fresh write-back cache. */
  lemma WriteBackFill(k1: Key, v1: Value, k2: Key, v2: Value, k3: Key, v3: Value)
    requires k1 != k2 && k1 != k3 && k2 != k3
    ensures var s3 := WriteBackPut(WriteBackPut(WriteBackPut(Fresh(), k1, v1), k2, v2), k3, v3);
      s3.cache.Keys == {k1, k2, k3} && |s3.cache| == 3 && s3.database == map[]
  {
    var s1 := WriteBackPut(Fresh(), k1, v1);
    WriteBackPutNewKey(Fresh(), k1, v1);
    var s2 := WriteBackPut(s1, k2, v2);
    WriteBackPutNewKey(s1, k2, v2);
    WriteBackPutNewKey(s2, k3, v3);
  }

  /** One round of the demo: a put of a new key, then the eviction of a victim.
      Resident keys stay out of the database; the cache and the database only
      ever hold keys seen before; and a resident victim leaves the cache size as
      it was and adds one database entry. */
  lemma WriteBackRound(s: Store, k: Key, v: Value, victim: Key)
    requires CacheOnly(s) && k !in s.cache && k !in s.database
    ensures var put := WriteBackPut(s, k, v);
      var after := WriteBackEvict(put, victim);
      && CacheOnly(after)
      && after.cache.Keys <= s.cache.Keys + {k}
      && after.database.Keys <= s.database.Keys + s.cache.Keys + {k}
      && (victim in put.cache ==> |after.cache| == |s.cache| && |after.database| == |s.database| + 1)
  {
    var put := WriteBackPut(s, k, v);
    WriteBackPutNewKey(s, k, v);
    WriteBackStepKeepsCacheOnly(s, PutEvent(k, v));
    WriteBackStepKeepsCacheOnly(put, EvictEvent(victim));
    if victim in put.cache {
      WriteBackEvictResident(put, victim);
    }
  }

  /** Two rounds of the demo from a full cache holding neither new key. */
  lemma WriteBackTwoRounds(s3: Store, k4: Key, v4: Value, k5: Key, v5: Value, first: Key, second: Key)
    requires CacheOnly(s3) && |s3.cache| == 3 && s3.database == map[]
    requires k4 !in s3.cache && k5 !in s3.cache && k4 != k5
    ensures var p4 := WriteBackPut(s3, k4, v4);
      var s4 := WriteBackEvict(p4, first);
      var p5 := WriteBackPut(s4, k5, v5);
      var s5 := WriteBackEvict(p5, second);
      && CacheOnly(s5)
      && (first in p4.cache && second in p5.cache ==> |s5.cache| == 3 && |s5.database| == 2)
  {
    WriteBackRound(s3, k4, v4, first);
    var s4 := WriteBackEvict(WriteBackPut(s3, k4, v4), first);
    WriteBackRound(s4, k5, v5, second);
  }

  /** The write-back trace over five distinct keys: three puts fill the cache,
      then each further put is followed by the eviction of a victim the cache's
      policy picks. Whatever the victims, no key still cached is in the
      database; when both victims were resident, three keys stay cached and
      two were written. */
  lemma WriteBackTrace(k1: Key, v1: Value, k2: Key, v2: Value, k3: Key, v3: Value,
                       k4: Key, v4: Value, k5: Key, v5: Value, first: Key, second: Key)
    requires k1 != k2 && k1 != k3 && k1 != k4 && k1 != k5 && k2 != k3 && k2 != k4 && k2 != k5
    requires k3 != k4 && k3 != k5 && k4 != k5
    ensures var s3 := WriteBackPut(WriteBackPut(WriteBackPut(Fresh(), k1, v1), k2, v2), k3, v3);
      var p4 := WriteBackPut(s3, k4, v4);
      var s4 := WriteBackEvict(p4, first);
      var p5 := WriteBackPut(s4, k5, v5);
      var s5 := WriteBackEvict(p5, second);
      && CacheOnly(s5)
      && (first in p4.cache && second in p5.cache ==> |s5.cache| == 3 && |s5.database| == 2)
  {
    WriteBackFill(k1, v1, k2, v2, k3, v3);
    var s3 := WriteBackPut(WriteBackPut(WriteBackPut(Fresh(), k1, v1), k2, v2), k3, v3);
    WriteBackTwoRounds(s3, k4, v4, k5, v5, first, second);
  }

  /** Write-back demo: keys cache:1 to cache:5 are put, and the cache evicts
      `first` after the fourth put and `second` after the fifth. */
  lemma WriteBackDemo(first: Key, second: Key)
    ensures var s3 := WriteBackPut(WriteBackPut(WriteBackPut(Fresh(),
        "cache:1", "item1_v1"), "cache:2", "item2_v1"), "cache:3", "item3_v1");
      var s4 := WriteBackEvict(WriteBackPut(s3, "cache:4", "item4_v1"), first);
      var s5 := WriteBackEvict(WriteBackPut(s4, "cache:5", "item5_v1"), second);
      && CacheOnly(s5)
      && (first in WriteBackPut(s3, "cache:4", "item4_v1").cache &&
          second in WriteBackPut(s4, "cache:5", "item5_v1").cache ==>
            |s5.cache| == 3 && |s5.database| == 2)
  {
    var ks := ["cache:1", "cache:2", "cache:3", "cache:4", "cache:5"];
    assert forall i, j | 0 <= i < j < 5 :: ks[i][6] != ks[j][6];
    WriteBackTrace("cache:1", "item1_v1", "cache:2", "item2_v1", "cache:3", "item3_v1",
                   "cache:4", "item4_v1", "cache:5", "item5_v1", first, second);
  }
}
