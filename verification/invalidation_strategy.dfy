/** The Caffeine cache of the invalidation demo: explicit purge of one key or
    of all keys, expire-after-write checked against an explicit clock in
    milliseconds, a loading `get` whose loader may answer null, and `refresh`,
    whose reload lands later as a separate step. */
module InvalidationStrategy {
  import opened Common

  /** A cached value and the time it was written. */
  datatype Entry = Entry(value: Value, writtenAt: int)

  /** `expireAfterWrite` is the configured duration (`None`: never expires);
      `refreshing` maps each key whose reload is in flight to the answer the
      key gave when that reload started (`None`: absent or expired). */
  datatype Cache = Cache(entries: map<Key, Entry>, expireAfterWrite: Option<nat>, refreshing: map<Key, Option<Value>>)

  function NewCache(expireAfterWrite: Option<nat>): Cache {
    Cache(map[], expireAfterWrite, map[])
  }

  /** The expire-after-write check: an entry is dead once the configured
      duration has elapsed since it was written. */
  predicate Expired(c: Cache, e: Entry, now: int) {
    c.expireAfterWrite.Some? && now - e.writtenAt >= c.expireAfterWrite.value
  }

  /** `getIfPresent`: the value of a live entry, null for a missing or expired one. */
  function GetIfPresent(c: Cache, k: Key, now: int): (r: Option<Value>)
    ensures r.Some? <==> k in c.entries && !Expired(c, c.entries[k], now)
    ensures r.Some? ==> r.value == c.entries[k].value
  {
    if k in c.entries && !Expired(c, c.entries[k], now) then Some(c.entries[k].value) else None
  }

  /** The expire-after-write boundary: without a duration an entry never
      expires; with duration `d` it is live strictly before `writtenAt + d`
      and expired from that instant on. */
  lemma ExpiresExactlyAfterDuration(c: Cache, e: Entry)
    ensures c.expireAfterWrite.None? ==> forall t :: !Expired(c, e, t)
    ensures c.expireAfterWrite.Some? ==>
      forall t :: Expired(c, e, t) <==> t >= e.writtenAt + c.expireAfterWrite.value
  {
  }

  /** Without a write, an absent or expired entry stays absent at every later
      time, and a present one answers the same value until it expires. */
  lemma AbsentStaysAbsent(c: Cache, k: Key, t: int, later: int)
    requires t <= later
    ensures GetIfPresent(c, k, t).None? ==> GetIfPresent(c, k, later).None?
    ensures GetIfPresent(c, k, later).Some? ==> GetIfPresent(c, k, t) == GetIfPresent(c, k, later)
  {
  }

  /** A cache whose entries do not die the instant they are written. */
  predicate KeepsFreshWrites(c: Cache) {
    c.expireAfterWrite != Some(0)
  }

  /** `put` at time `now`: `k` answers `v` strictly until the expire-after-write
      duration has elapsed (forever without one) and is gone from then on; no
      other key's answer changes at any time; a reload in flight for `k` is
      discarded. */
  function Put(c: Cache, k: Key, v: Value, now: int): (r: Cache)
    ensures forall t :: GetIfPresent(r, k, t) == (if Expired(c, Entry(v, now), t) then None else Some(v))
    ensures forall x, t :: x != k ==> GetIfPresent(r, x, t) == GetIfPresent(c, x, t)
    ensures r.expireAfterWrite == c.expireAfterWrite && r.refreshing == c.refreshing - {k}
  {
    c.(entries := c.entries[k := Entry(v, now)], refreshing := c.refreshing - {k})
  }

  /** `invalidate`: `k` is absent at every time, every other key answers as
      before, and a reload in flight for `k` is discarded. */
  function Invalidate(c: Cache, k: Key): (r: Cache)
    ensures forall t :: GetIfPresent(r, k, t) == None
    ensures forall x, t :: x != k ==> GetIfPresent(r, x, t) == GetIfPresent(c, x, t)
    ensures k !in r.refreshing && r.expireAfterWrite == c.expireAfterWrite
  {
    c.(entries := c.entries - {k}, refreshing := c.refreshing - {k})
  }

  /** `invalidateAll`: every key is absent at every time. */
  function InvalidateAll(c: Cache): (r: Cache)
    ensures forall x, t :: GetIfPresent(r, x, t) == None
    ensures r.refreshing == map[] && r.expireAfterWrite == c.expireAfterWrite
  {
    c.(entries := map[], refreshing := map[])
  }

  /** The cache's loader: a value, or null for "nothing to cache". */
  type Loader = Key -> Option<Value>

  /** `LoadingCache.get`: a live entry is returned without consulting the
      loader. Otherwise the loader's answer is returned; a value is stored
      (written now), while null stores nothing and drops the expired entry.
      The answer is what the cache then holds, and no other key changes. */
  function Get(c: Cache, k: Key, now: int, loader: Loader): (r: (Option<Value>, Cache))
    ensures GetIfPresent(c, k, now).Some? ==> r == (GetIfPresent(c, k, now), c)
    ensures GetIfPresent(c, k, now).None? ==> r.0 == loader(k)
    ensures GetIfPresent(c, k, now).None? && loader(k).None? ==> k !in r.1.entries
    ensures KeepsFreshWrites(c) ==> GetIfPresent(r.1, k, now) == r.0
    ensures forall x, t :: x != k ==> GetIfPresent(r.1, x, t) == GetIfPresent(c, x, t)
  {
    match GetIfPresent(c, k, now)
    case Some(v) => (Some(v), c)
    case None =>
      match loader(k)
      case Some(v) => (Some(v), Put(c, k, v, now))
      case None => (None, Invalidate(c, k))
  }

  /** `refresh` at time `now`: the reload starts, remembering the answer the
      key gives now; a reload already in flight is kept as it is. Nothing
      observable changes: until it lands every lookup answers as before, the
      old value for `k` included. */
  function Refresh(c: Cache, k: Key, now: int): (r: Cache)
    ensures forall x, t :: GetIfPresent(r, x, t) == GetIfPresent(c, x, t)
    ensures k in r.refreshing
    ensures k !in c.refreshing ==> r.refreshing[k] == GetIfPresent(c, k, now)
    ensures k in c.refreshing ==> r == c
  {
    if k in c.refreshing then c else c.(refreshing := c.refreshing[k := GetIfPresent(c, k, now)])
  }

  /** The reload of `k` lands at `now` with the loader's answer. It takes
      effect only while it is still in flight and the key still gives the
      answer it gave when the reload started: then a value replaces the entry
      (written now) and null removes it. A reload discarded by a later put or
      invalidation changes nothing, and one whose key has since expired (or
      otherwise answers differently) is dropped without touching the entries. */
  function RefreshLands(c: Cache, k: Key, loaded: Option<Value>, now: int): (r: Cache)
    ensures k !in r.refreshing
    ensures k in c.refreshing && GetIfPresent(c, k, now) == c.refreshing[k] && loaded.Some? && KeepsFreshWrites(c) ==>
      GetIfPresent(r, k, now) == loaded
    ensures k in c.refreshing && GetIfPresent(c, k, now) == c.refreshing[k] && loaded.None? ==>
      forall t :: GetIfPresent(r, k, t) == None
    ensures k in c.refreshing && GetIfPresent(c, k, now) != c.refreshing[k] ==>
      r == c.(refreshing := c.refreshing - {k})
    ensures k !in c.refreshing ==> r == c
    ensures forall x, t :: x != k ==> GetIfPresent(r, x, t) == GetIfPresent(c, x, t)
  {
    if k !in c.refreshing then c
    else if GetIfPresent(c, k, now) != c.refreshing[k] then c.(refreshing := c.refreshing - {k})
    else
      match loaded
      case Some(v) => Put(c, k, v, now)
      case None => Invalidate(c, k)
  }

  /** A reload that lands after the entry it started from has expired is
      discarded: the key stays absent, whatever the loader answered. */
  lemma ReloadOfExpiredEntryIsDiscarded(c: Cache, k: Key, v: Value, written: int, start: int, landed: int, loaded: Option<Value>)
    requires written <= start <= landed && k !in c.refreshing
    requires c.expireAfterWrite.Some? && start < written + c.expireAfterWrite.value <= landed
    ensures var started := Refresh(Put(c, k, v, written), k, start);
      && GetIfPresent(started, k, start) == Some(v)
      && forall t :: t >= landed ==> GetIfPresent(RefreshLands(started, k, loaded, landed), k, t) == None
  {
    var started := Refresh(Put(c, k, v, written), k, start);
    assert started.refreshing[k] == Some(v);
    assert GetIfPresent(started, k, landed) == None;
  }

  /* ---------- the demo traces ---------- */

  /** Purge demo: after three puts key1 answers value1; invalidating key1
      makes it absent and leaves key2 and key3; `invalidateAll` empties the cache. */
  lemma PurgeDemo(now: int)
    ensures var c := Put(Put(Put(NewCache(None), "key1", "value1", now),
        "key2", "value2", now), "key3", "value3", now);
      var purged := Invalidate(c, "key1");
      && GetIfPresent(c, "key1", now) == Some("value1")
      && GetIfPresent(purged, "key1", now) == None
      && GetIfPresent(purged, "key2", now) == Some("value2")
      && GetIfPresent(purged, "key3", now) == Some("value3")
      && GetIfPresent(InvalidateAll(purged), "key2", now) == None
      && GetIfPresent(InvalidateAll(purged), "key3", now) == None
  {
    var c1 := Put(NewCache(None), "key1", "value1", now);
    var c2 := Put(c1, "key2", "value2", now);
    var c := Put(c2, "key3", "value3", now);
    assert "key1" != "key2" by { assert "key1"[3] != "key2"[3]; }
    assert "key1" != "key3" by { assert "key1"[3] != "key3"[3]; }
    assert "key2" != "key3" by { assert "key2"[3] != "key3"[3]; }
  }

  /** The loader of the refresh demo: null for "B", otherwise a fresh value
      stamped with the load time (`stamp` stands for the clock reading). */
  function DemoLoader(stamp: string): (load: Loader)
    ensures load("B") == None
    ensures forall k :: k != "B" ==> load(k) == Some("refreshed_" + k + "_" + stamp)
  {
    k => if k == "B" then None else Some("refreshed_" + k + "_" + stamp)
  }

  /** The four puts of the refresh demo into a cache expiring 3 s after write. */
  function RefreshDemoCache(t0: int): Cache {
    Put(Put(Put(Put(NewCache(Some(3000)), "A", "A", t0), "B", "B", t0), "C", "C", t0), "D", "D", t0)
  }

  /** Refresh demo: right after `refresh("A")`, A still answers "A". The
      reload lands within a second, while A is still live, and installs the
      loader's fresh value; 4 s after the puts every entry has expired. `get("B")` then calls the
      loader, which answers null, so B stays absent; `get("A")` reloads A. */
  lemma RefreshDemo(t0: int, landed: int, stamp: string, later: string)
    requires t0 <= landed <= t0 + 1000
    ensures GetIfPresent(Refresh(RefreshDemoCache(t0), "A", t0), "A", t0) == Some("A")
    ensures var c := RefreshLands(Refresh(RefreshDemoCache(t0), "A", t0), "A", DemoLoader(stamp)("A"), landed);
      var now := t0 + 4000;
      var getB := Get(c, "B", now, DemoLoader(later));
      var getA := Get(getB.1, "A", now, DemoLoader(later));
      && GetIfPresent(c, "A", landed) == Some("refreshed_A_" + stamp)
      && GetIfPresent(c, "A", now) == None
      && GetIfPresent(c, "B", now) == None
      && getB.0 == None && "B" !in getB.1.entries
      && getA.0 == Some("refreshed_A_" + later)
      && GetIfPresent(getA.1, "A", now) == Some("refreshed_A_" + later)
  {
    var c0 := RefreshDemoCache(t0);
    assert "A" != "B" && "B" in c0.entries && c0.entries["B"].writtenAt == t0;
    assert "A" != "C" && "A" != "D" && c0.entries["A"] == Entry("A", t0);
    var started := Refresh(c0, "A", t0);
    assert started.refreshing["A"] == Some("A");
    assert GetIfPresent(started, "A", landed) == Some("A");
    assert DemoLoader(stamp)("A") == Some("refreshed_A_" + stamp) by {
      assert "refreshed_" + "A" + "_" + stamp == "refreshed_A_" + stamp;
    }
    var c := RefreshLands(started, "A", DemoLoader(stamp)("A"), landed);
    assert c.entries["A"].writtenAt == landed;
    var now := t0 + 4000;
    assert GetIfPresent(c, "A", now) == None;
    assert GetIfPresent(c, "B", now) == None;
    var getB := Get(c, "B", now, DemoLoader(later));
    assert GetIfPresent(getB.1, "A", now) == None;
    assert "refreshed_" + "A" + "_" + later == "refreshed_A_" + later;
  }
}
