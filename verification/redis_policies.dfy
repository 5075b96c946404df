/** The Redis side of the tutorial: Redis as a map from key to a string and an
    optional absolute expiry time (milliseconds, against an explicit clock),
    the commands the demos issue (GET, SET and its NX/XX/EX forms, SETEX, DEL,
    EXISTS, KEYS on a prefix pattern, a compare-and-delete script), and the
    cache patterns built from them. */
module RedisPolicies {
  import opened Common

  /** A stored string and the instant after which it is gone (`None`: no TTL). */
  datatype Stored = Stored(value: Value, expireAt: Option<int>)

  type Redis = map<Key, Stored>

  /** Redis treats a key as expired once the clock is strictly past its
      expiry time; an expired key behaves exactly like a missing one. */
  predicate Live(r: Redis, k: Key, now: int) {
    k in r && (r[k].expireAt.None? || now <= r[k].expireAt.value)
  }

  /** The expiry boundary: a key without TTL is live at every instant, a key
      with expiry time `e` is live exactly up to and including `e`, and a
      missing key is never live. */
  lemma LiveExactlyUntilExpiry(r: Redis, k: Key)
    ensures k !in r ==> forall t :: !Live(r, k, t)
    ensures k in r && r[k].expireAt.None? ==> forall t :: Live(r, k, t)
    ensures k in r && r[k].expireAt.Some? ==> forall t :: Live(r, k, t) <==> t <= r[k].expireAt.value
  {
  }

  /** GET: the value of a live key, nil otherwise. */
  function Get(r: Redis, k: Key, now: int): (v: Option<Value>)
    ensures v.Some? <==> Live(r, k, now)
    ensures v.Some? ==> v.value == r[k].value
  {
    if Live(r, k, now) then Some(r[k].value) else None
  }

  /** Without a write, a key GET misses stays missing at every later instant,
      and a key GET finds answers the same value at every earlier instant. */
  lemma ExpiredKeyStaysGone(r: Redis, k: Key, t: int, later: int)
    requires t <= later
    ensures Get(r, k, t).None? ==> Get(r, k, later).None?
    ensures Get(r, k, later).Some? ==> Get(r, k, t) == Get(r, k, later)
  {
  }

  /** Two Redis states that answer GET alike for `k` at every instant. */
  ghost predicate SameAt(r: Redis, r': Redis, k: Key) {
    forall t :: Get(r', k, t) == Get(r, k, t)
  }

  /** Plain SET: `k` answers `v` from now on, without expiry (SET discards any
      TTL the key had); every other key answers as before. */
  function Set(r: Redis, k: Key, v: Value): (r': Redis)
    ensures forall t :: Get(r', k, t) == Some(v)
    ensures forall x :: x != k ==> SameAt(r, r', x)
  {
    r[k := Stored(v, None)]
  }

  /** SETEX / SET EX: a positive expire time is accepted (`true`), and then
      `k` answers `v` until `seconds` have passed and is gone strictly after
      that. An expire time of 0 is rejected with an error reply (`false`) and
      nothing is stored. Either way every other key answers as before. */
  function SetEx(r: Redis, k: Key, v: Value, seconds: nat, now: int): (res: (bool, Redis))
    ensures res.0 <==> seconds > 0
    ensures res.0 ==> forall t :: Get(res.1, k, t) == (if t <= now + 1000 * seconds then Some(v) else None)
    ensures !res.0 ==> res.1 == r
    ensures forall x :: x != k ==> SameAt(r, res.1, x)
  {
    if seconds == 0 then (false, r) else (true, r[k := Stored(v, Some(now + 1000 * seconds))])
  }

  /* ---------- the token lock ---------- */

  /** The lock's lease: `SET lock token NX EX 5`. */
  const LockSeconds: nat := 5

  /** Lock acquisition, `SET k token NX EX 5`: succeeds exactly when the lock
      key is missing or expired, and then stores the caller's token for the
      lease; a failed attempt changes nothing. */
  function AcquireLock(r: Redis, k: Key, token: Value, now: int): (res: (bool, Redis))
    ensures res.0 <==> !Live(r, k, now)
    ensures res.0 ==> forall t :: Get(res.1, k, t) == (if t <= now + 1000 * LockSeconds then Some(token) else None)
    ensures !res.0 ==> res.1 == r
    ensures forall x :: x != k ==> SameAt(r, res.1, x)
  {
    if Live(r, k, now) then (false, r) else (true, SetEx(r, k, token, LockSeconds, now).1)
  }

  /** The release script: `if GET k == token then return DEL k else return 0`.
      It answers 1 and removes the lock exactly when the caller's token is the
      live value; otherwise it answers 0 and changes nothing. */
  function ReleaseLock(r: Redis, k: Key, token: Value, now: int): (res: (int, Redis))
    ensures res.0 == 1 <==> Get(r, k, now) == Some(token)
    ensures res.0 == 0 <==> Get(r, k, now) != Some(token)
    ensures res.0 == 1 ==> forall t :: Get(res.1, k, t) == None
    ensures res.0 == 0 ==> res.1 == r
    ensures forall x :: x != k ==> SameAt(r, res.1, x)
  {
    if Get(r, k, now) == Some(token) then
      var deleted := Del(r, [k], now);
      assert LiveAmong(r, [k], now) == {k};
      deleted
    else (0, r)
  }

  /** Mutual exclusion: while the lease of a successful acquisition runs, no
      other caller acquires the lock, and a release with another token fails
      and leaves the lock held. */
  lemma LockIsExclusive(r: Redis, k: Key, owner: Value, other: Value, t1: int, t2: int)
    requires AcquireLock(r, k, owner, t1).0
    requires t1 <= t2 <= t1 + 1000 * LockSeconds
    requires other != owner
    ensures var held := AcquireLock(r, k, owner, t1).1;
      && !AcquireLock(held, k, other, t2).0
      && ReleaseLock(held, k, other, t2) == (0, held)
      && Get(held, k, t2) == Some(owner)
  {
    var held := AcquireLock(r, k, owner, t1).1;
    assert Get(held, k, t2) == Some(owner);
  }

  /** The owner's release within the lease answers 1 and frees the lock, so a
      later acquisition by anyone succeeds. */
  lemma OwnerReleaseFreesLock(r: Redis, k: Key, owner: Value, other: Value, t1: int, t2: int, t3: int)
    requires AcquireLock(r, k, owner, t1).0
    requires t1 <= t2 <= t1 + 1000 * LockSeconds
    ensures var released := ReleaseLock(AcquireLock(r, k, owner, t1).1, k, owner, t2);
      released.0 == 1 && AcquireLock(released.1, k, other, t3).0
  {
    var held := AcquireLock(r, k, owner, t1).1;
    assert Get(held, k, t2) == Some(owner);
    var released := ReleaseLock(held, k, owner, t2);
    assert !Live(released.1, k, t3) by { assert Get(released.1, k, t3) == None; }
  }

  /** A lock whose holder never releases it frees itself once the lease has
      run out: an acquisition strictly after the expiry succeeds. */
  lemma LockLeaseExpires(r: Redis, k: Key, owner: Value, other: Value, t1: int, t2: int)
    requires AcquireLock(r, k, owner, t1).0
    requires t2 > t1 + 1000 * LockSeconds
    ensures AcquireLock(AcquireLock(r, k, owner, t1).1, k, other, t2).0
  {
    var held := AcquireLock(r, k, owner, t1).1;
    assert Get(held, k, t2) == None;
  }

  /* ---------- DEL, EXISTS and the prefix ban ---------- */

  /** The distinct keys among `ks`. */
  function KeySet(ks: seq<Key>): set<Key> {
    set k | k in ks
  }

  /** The distinct keys among `ks` that are live. */
  function LiveAmong(r: Redis, ks: seq<Key>, now: int): set<Key> {
    set k | k in ks && Live(r, k, now)
  }

  /** DEL k1 k2 ...: removes every named key and answers how many distinct
      live keys it removed (a key named twice is removed once; an expired key
      is not counted). Keys not named are untouched. */
  function Del(r: Redis, ks: seq<Key>, now: int): (res: (nat, Redis))
    ensures res.0 == |LiveAmong(r, ks, now)|
    ensures res.1.Keys == r.Keys - KeySet(ks)
    ensures forall x :: x in res.1 ==> res.1[x] == r[x]
    decreases |ks|
  {
    if ks == [] then (0, r)
    else
      var rest := Del(r - {ks[0]}, ks[1..], now);
      LiveAmongFirst(r, ks, now);
      ((if Live(r, ks[0], now) then 1 else 0) + rest.0, rest.1)
  }

  /** How the named keys split into the first one and the rest, once the
      first is gone. */
  lemma LiveAmongFirst(r: Redis, ks: seq<Key>, now: int)
    requires |ks| > 0
    ensures KeySet(ks) == {ks[0]} + KeySet(ks[1..])
    ensures |LiveAmong(r, ks, now)| ==
      (if Live(r, ks[0], now) then 1 else 0) + |LiveAmong(r - {ks[0]}, ks[1..], now)|
  {
    var rest := LiveAmong(r - {ks[0]}, ks[1..], now);
    assert ks[0] !in rest;
    if Live(r, ks[0], now) {
      assert LiveAmong(r, ks, now) == rest + {ks[0]};
    } else {
      assert LiveAmong(r, ks, now) == rest;
    }
  }

  /** After DEL, every named key is absent at every instant and every other
      key answers as before. */
  lemma DelRemovesExactlyNamedKeys(r: Redis, ks: seq<Key>, now: int)
    ensures var r' := Del(r, ks, now).1;
      && (forall x, t :: x in ks ==> Get(r', x, t) == None)
      && (forall x :: x !in ks ==> SameAt(r, r', x))
  {
    var r' := Del(r, ks, now).1;
    forall x, t | x in ks ensures Get(r', x, t) == None {
      assert x in KeySet(ks);
    }
    forall x | x !in ks ensures SameAt(r, r', x) {
      assert x !in KeySet(ks);
    }
  }

  /** The positions of `ks` that name a live key. */
  function LivePositions(r: Redis, ks: seq<Key>, now: int): set<int> {
    set i | 0 <= i < |ks| && Live(r, ks[i], now)
  }

  /** The live positions of `ks` are those of all but its last argument, plus
      the last position when that argument is live. */
  lemma LivePositionsOfPrefix(r: Redis, ks: seq<Key>, now: int)
    requires |ks| > 0
    ensures var last := |ks| - 1;
      |LivePositions(r, ks, now)| ==
        |LivePositions(r, ks[..last], now)| + (if Live(r, ks[last], now) then 1 else 0)
  {
    var last := |ks| - 1;
    var prefix := LivePositions(r, ks[..last], now);
    assert forall i | 0 <= i < last :: ks[..last][i] == ks[i];
    assert last !in prefix;
    if Live(r, ks[last], now) {
      assert LivePositions(r, ks, now) == prefix + {last};
    } else {
      assert LivePositions(r, ks, now) == prefix;
    }
  }

  /** EXISTS k1 k2 ...: how many of the arguments are live keys, counting a
      key named twice twice. */
  function Exists(r: Redis, ks: seq<Key>, now: int): (n: nat)
    ensures n == |LivePositions(r, ks, now)|
    ensures n <= |ks|
    ensures n == |ks| <==> forall i | 0 <= i < |ks| :: Live(r, ks[i], now)
    ensures n == 0 <==> forall i | 0 <= i < |ks| :: !Live(r, ks[i], now)
    decreases |ks|
  {
    if ks == [] then 0
    else
      var last := |ks| - 1;
      var rest := Exists(r, ks[..last], now);
      assert forall i | 0 <= i < last :: ks[i] == ks[..last][i];
      LivePositionsOfPrefix(r, ks, now);
      rest + (if Live(r, ks[last], now) then 1 else 0)
  }

  /** The keys KEYS returns for the pattern `prefix*`: the live keys that
      start with `prefix`. */
  function MatchingKeys(r: Redis, prefix: string, now: int): (m: set<Key>)
    ensures forall k :: k in m <==> Live(r, k, now) && prefix <= k
  {
    set k | k in r && Live(r, k, now) && prefix <= k
  }

  /** The ban: `KEYS prefix*`, then, when that is non-empty, DEL of every key
      it returned. Answers the number of matching keys; every matching key is
      gone and every other key answers as before. */
  function Ban(r: Redis, prefix: string, now: int): (res: (nat, Redis))
    ensures res.0 == |MatchingKeys(r, prefix, now)|
    ensures forall x, t :: x in MatchingKeys(r, prefix, now) ==> Get(res.1, x, t) == None
    ensures forall x :: x !in MatchingKeys(r, prefix, now) ==> SameAt(r, res.1, x)
  {
    var matched := MatchingKeys(r, prefix, now);
    if |matched| == 0 then (0, r) else (|matched|, r - matched)
  }

  /** The ban is exactly the DEL of the keys KEYS returned, in whatever order
      the reply lists them: same count, same resulting Redis. */
  lemma BanIsDelOfMatches(r: Redis, prefix: string, now: int, reply: seq<Key>)
    requires KeySet(reply) == MatchingKeys(r, prefix, now)
    ensures Del(r, reply, now) == Ban(r, prefix, now)
  {
    var matched := MatchingKeys(r, prefix, now);
    assert LiveAmong(r, reply, now) == matched by {
      forall k ensures k in LiveAmong(r, reply, now) <==> k in matched {
        assert k in reply <==> k in KeySet(reply);
      }
    }
    var d := Del(r, reply, now).1;
    assert d == r - matched;
  }

  /* ---------- SET XX ---------- */

  /** `SET k v XX`: only when `k` is live does it store `v` (dropping any
      TTL) and answer OK; on a missing or expired key it answers nil and
      changes nothing. */
  function SetIfExists(r: Redis, k: Key, v: Value, now: int): (res: (bool, Redis))
    ensures res.0 <==> Live(r, k, now)
    ensures res.0 ==> forall t :: Get(res.1, k, t) == Some(v)
    ensures !res.0 ==> res.1 == r
    ensures forall x :: x != k ==> SameAt(r, res.1, x)
  {
    if Live(r, k, now) then (true, Set(r, k, v)) else (false, r)
  }

  /* ---------- cache patterns over Redis and the database map ---------- */

  /** Cache-aside read: a live cached value is returned as is. On a miss the
      database is read; a value found there is cached (without TTL) and
      returned, and when the database has nothing the cache is unchanged. */
  function CacheAsideRead(r: Redis, db: Table, k: Key, now: int): (res: (Option<Value>, Redis))
    ensures Live(r, k, now) ==> res == (Get(r, k, now), r)
    ensures !Live(r, k, now) ==> res.0 == Find(db, k)
    ensures !Live(r, k, now) && k in db ==> forall t :: Get(res.1, k, t) == Some(db[k])
    ensures !Live(r, k, now) && k !in db ==> res.1 == r
    ensures forall x :: x != k ==> SameAt(r, res.1, x)
  {
    match Get(r, k, now)
    case Some(v) => (Some(v), r)
    case None =>
      match Find(db, k)
      case Some(v) => (Some(v), Set(r, k, v))
      case None => (None, r)
  }

  /** A second cache-aside read right after the first answers the same and
      changes nothing: the first read left the value in the cache. */
  lemma CacheAsideReadSettles(r: Redis, db: Table, k: Key, now: int)
    ensures var first := CacheAsideRead(r, db, k, now);
      CacheAsideRead(first.1, db, k, now) == first
  {
  }

  /** Write-through over Redis: SET, then the database write. Cache and
      database then agree on the key, and on other keys nothing changes. */
  function WriteThrough(r: Redis, db: Table, k: Key, v: Value): (res: (Redis, Table))
    ensures forall t :: Get(res.0, k, t) == Find(res.1, k) == Some(v)
    ensures forall x :: x != k ==> SameAt(r, res.0, x) && Find(res.1, x) == Find(db, x)
  {
    (Set(r, k, v), DbWrite(db, k, v))
  }

  /** A pipeline of SETs to one key: the last value wins, the key carries no
      TTL, and other keys are untouched. */
  function Pipeline(r: Redis, k: Key, vs: seq<Value>): (r': Redis)
    ensures vs == [] ==> r' == r
    ensures vs != [] ==> forall t :: Get(r', k, t) == Some(vs[|vs| - 1])
    ensures forall x :: x != k ==> SameAt(r, r', x)
    decreases |vs|
  {
    if vs == [] then r
    else
      var first := Set(r, k, vs[0]);
      var r' := Pipeline(first, k, vs[1..]);
      assert forall x, t :: x != k ==> Get(r', x, t) == Get(first, x, t) == Get(r, x, t) by {
        forall x, t | x != k ensures Get(r', x, t) == Get(first, x, t) == Get(r, x, t) {
          assert SameAt(first, r', x) && SameAt(r, first, x);
        }
      }
      r'
  }

  /** A string made of decimal digits only. */
  predicate IsDigits(s: string) {
    forall i | 0 <= i < |s| :: '0' <= s[i] <= '9'
  }

  /** The form `String.valueOf` gives a non-negative int: decimal digits,
      at least one, and no leading zero unless the number is zero. */
  predicate Canonical(s: string) {
    IsDigits(s) && |s| >= 1 && (s[0] != '0' || |s| == 1)
  }

  /** `String.valueOf` on a non-negative int: its decimal digits. */
  function NatToString(n: nat): (s: string)
    ensures Canonical(s)
    ensures s[0] == '0' <==> n == 0
    decreases n
  {
    if n < 10 then [Digit(n)] else NatToString(n / 10) + [Digit(n % 10)]
  }

  function Digit(d: nat): (c: char)
    requires d < 10
    ensures '0' <= c <= '9'
  {
    ('0' as int + d) as char
  }

  /** The inverse of `NatToString`: the number a string of decimal digits denotes. */
  function ParseNat(s: string): nat
    requires IsDigits(s)
    decreases |s|
  {
    if s == [] then 0 else ParseNat(s[..|s| - 1]) * 10 + (s[|s| - 1] as int - '0' as int)
  }

  /** Decimal rendering loses nothing: reading the digits back gives the number. */
  lemma {:induction false} ParseNatToString(n: nat)
    ensures ParseNat(NatToString(n)) == n
    decreases n
  {
    if n >= 10 {
      var s := NatToString(n);
      assert s[..|s| - 1] == NatToString(n / 10);
      ParseNatToString(n / 10);
    }
  }

  /** Appending digit `d` to the decimal form of `p` gives `p * 10 + d`. */
  lemma AppendDigit(p: nat, d: nat)
    requires d < 10
    ensures (p * 10 + d) / 10 == p && (p * 10 + d) % 10 == d
  {
  }

  /** A canonical digit string is the rendering of the number it denotes:
      with `ParseNatToString`, rendering is a bijection between the naturals
      and the canonical digit strings. */
  lemma {:induction false} CanonicalIsRendering(s: string)
    requires Canonical(s)
    ensures NatToString(ParseNat(s)) == s
    decreases |s|
  {
    var last := |s| - 1;
    var p := s[..last];
    var d := s[last] as int - '0' as int;
    assert 0 <= d < 10 && Digit(d) == s[last];
    assert IsDigits(p);
    var n := ParseNat(p) * 10 + d;
    assert ParseNat(s) == n;
    if last == 0 {
      assert p == [];
      assert n == d;
      assert NatToString(n) == [Digit(d)];
    } else {
      assert p[0] == s[0];
      CanonicalIsRendering(p);
      assert ParseNat(p) != 0;
      AppendDigit(ParseNat(p), d);
      assert NatToString(n) == NatToString(ParseNat(p)) + [Digit(d)];
      assert s == p + [s[last]];
    }
  }

  /** The counter updates of the write-back demo: "100", "200", ..., i * 100
      for i = 1..count, each in the canonical form `String.valueOf` gives. */
  function CounterUpdates(count: nat): (vs: seq<Value>)
    ensures |vs| == count
    ensures forall i | 0 <= i < count :: Canonical(vs[i]) && ParseNat(vs[i]) == (i + 1) * 100
  {
    var vs := seq(count, i requires 0 <= i => NatToString((i + 1) * 100));
    forall i | 0 <= i < count ensures Canonical(vs[i]) && ParseNat(vs[i]) == (i + 1) * 100 {
      ParseNatToString((i + 1) * 100);
    }
    vs
  }

  /** Coalesced write-back: after the ten pipelined counter updates the cache
      holds the last one; the batched database write sends the value read back
      from the cache, so the database's final state carries only that value
      under the key. That value is `String.valueOf(count * 100)`. */
  function WriteBack(r: Redis, db: Table, k: Key, count: nat, now: int): (res: (Option<Value>, Redis, Table))
    requires count >= 1
    ensures res.0 == Some(NatToString(count * 100))
    ensures forall t :: Get(res.1, k, t) == res.0
    ensures res.2 == db[k := res.0.value]
  {
    var updates := CounterUpdates(count);
    var cache := Pipeline(r, k, updates);
    var final := Get(cache, k, now);
    CanonicalIsRendering(updates[count - 1]);
    (final, cache, DbWrite(db, k, final.value))
  }

  /* ---------- the demo traces ---------- */

  /** The demo's write-back: ten updates, and "1000" is what both the cache and
      the database end with. */
  lemma WriteBackDemo(r: Redis, db: Table, now: int)
    ensures var res := WriteBack(r, db, "counter:writeback:001", 10, now);
      res.0 == Some("1000") && Find(res.2, "counter:writeback:001") == Some("1000")
  {
    assert NatToString(1) == "1";
    assert NatToString(10) == "10";
    assert NatToString(100) == "100";
    assert NatToString(1000) == "1000";
    assert CounterUpdates(10)[9] == "1000";
  }

  /** Write-around over Redis: the write goes to the database only; the cache
      misses on the key, and the cache-aside read then loads and caches it. */
  lemma WriteAroundDemo(r: Redis, db: Table, k: Key, v: Value, now: int)
    requires !Live(r, k, now)
    ensures var db' := DbWrite(db, k, v);
      var read := CacheAsideRead(r, db', k, now);
      && Get(r, k, now) == None && Find(db', k) == Some(v)
      && read.0 == Some(v) && Get(read.1, k, now) == Some(v)
  {
  }

  /** Write-behind over Redis: the cache and the database as one store. The
      SET happens at once; the database is not touched until the scheduled
      write, a separate step. */
  function WriteBehindSet(r: Redis, db: Table, k: Key, v: Value): (res: (Redis, Table))
    ensures forall t :: Get(res.0, k, t) == Some(v)
    ensures forall x :: x != k ==> SameAt(r, res.0, x)
    ensures res.1 == db
  {
    (Set(r, k, v), db)
  }

  /** The scheduled database write of write-behind: the database takes the
      value and Redis is left as it is. */
  function ScheduledWrite(store: (Redis, Table), k: Key, v: Value): (res: (Redis, Table))
    ensures res.0 == store.0
    ensures Find(res.1, k) == Some(v)
    ensures forall x :: x != k ==> Find(res.1, x) == Find(store.1, x)
  {
    (store.0, DbWrite(store.1, k, v))
  }

  /** The write-behind demo: right after the SET the cache answers the value
      while the database still answers what it had; once the scheduled write
      has run, cache and database agree on the value. */
  lemma WriteBehindDemo(r: Redis, db: Table, now: int)
    ensures var k := "session:writebehind:789";
      var v := "User Session Data";
      var before := WriteBehindSet(r, db, k, v);
      var after := ScheduledWrite(before, k, v);
      && Get(before.0, k, now) == Some(v) && Find(before.1, k) == Find(db, k)
      && Get(after.0, k, now) == Some(v) && Find(after.1, k) == Some(v)
  {
  }

  /** SETEX with 3 s: present at once, gone 3.5 s later. */
  lemma TtlDemo(r: Redis, now: int)
    ensures SetEx(r, "session:ttl:abc", "session_data", 3, now).0
    ensures var r' := SetEx(r, "session:ttl:abc", "session_data", 3, now).1;
      Get(r', "session:ttl:abc", now) == Some("session_data")
      && Get(r', "session:ttl:abc", now + 3500) == None
  {
  }

  /** Manual purge: two keys set, EXISTS answers 2, DEL answers 2, and EXISTS
      then answers 0. */
  lemma DelDemo(r: Redis, now: int)
    ensures var ks := ["temp:data1", "temp:data2"];
      var r' := Set(Set(r, "temp:data1", "value1"), "temp:data2", "value2");
      && Exists(r', ks, now) == 2
      && Del(r', ks, now).0 == 2
      && Exists(Del(r', ks, now).1, ks, now) == 0
  {
    var ks := ["temp:data1", "temp:data2"];
    var r' := Set(Set(r, "temp:data1", "value1"), "temp:data2", "value2");
    assert "temp:data1" != "temp:data2" by { assert "temp:data1"[9] != "temp:data2"[9]; }
    assert LiveAmong(r', ks, now) == {"temp:data1", "temp:data2"};
    DelRemovesExactlyNamedKeys(r', ks, now);
  }

  /** The three puts of the ban demo. */
  function BanDemoKeys(r: Redis): Redis {
    Set(Set(Set(r, "user:cache:1", "user1"), "user:cache:2", "user2"), "product:cache:1", "product1")
  }

  /** The ban of "user:cache:*" deletes exactly user:cache:1 and user:cache:2,
      given that no other live key had that prefix, and product:cache:1 stays. */
  lemma BanDemo(r: Redis, now: int)
    requires forall k | k in r && "user:cache:" <= k :: !Live(r, k, now)
    ensures var banned := Ban(BanDemoKeys(r), "user:cache:", now);
      && banned.0 == 2
      && Get(banned.1, "user:cache:1", now) == None
      && Get(banned.1, "user:cache:2", now) == None
      && Get(banned.1, "product:cache:1", now) == Some("product1")
  {
    var r' := BanDemoKeys(r);
    assert "user:cache:1" != "user:cache:2" by { assert "user:cache:1"[11] != "user:cache:2"[11]; }
    assert !("user:cache:" <= "product:cache:1") by { assert "product:cache:1"[0] != 'u'; }
    assert "user:cache:" <= "user:cache:1" && "user:cache:" <= "user:cache:2";
    assert MatchingKeys(r', "user:cache:", now) == {"user:cache:1", "user:cache:2"};
  }

  /** Conditional refresh: SET XX on the missing key answers nil and changes
      nothing; after a plain SET, SET XX answers OK and overwrites. */
  lemma SetIfExistsDemo(r: Redis, now: int)
    requires !Live(r, "cache:conditional", now)
    ensures var first := SetIfExists(r, "cache:conditional", "new_value", now);
      var second := SetIfExists(Set(first.1, "cache:conditional", "existing_value"), "cache:conditional", "updated_value", now);
      && !first.0 && first.1 == r
      && second.0 && Get(second.1, "cache:conditional", now) == Some("updated_value")
  {
  }
}
