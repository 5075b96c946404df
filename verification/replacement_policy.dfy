/** The bounded replacement maps of the replacement-policy demo: a
    `java.util.LinkedHashMap` whose `removeEldestEntry` hook answers true once
    the map holds more than three entries. Built access-ordered it is the LRU
    cache; built insertion-ordered it is the FIFO cache. */
module ReplacementPolicy {
  import opened Common

  /** `removeEldestEntry` returns `size() > MaxEntries`. */
  const MaxEntries: nat := 3

  /** The `accessOrder` flag of the `LinkedHashMap` constructor. */
  datatype Ordering = AccessOrder | InsertionOrder

  /** A linked hash map: `keys` is its entry list, eldest first, and `vals`
      its hash table. */
  datatype LinkedMap = LinkedMap(ordering: Ordering, keys: seq<Key>, vals: map<Key, Value>)

  ghost predicate Distinct(s: seq<Key>) {
    forall i, j :: 0 <= i < j < |s| ==> s[i] != s[j]
  }

  /** Every entry is linked exactly once and the list holds only entries. */
  ghost predicate Valid(m: LinkedMap) {
    && Distinct(m.keys)
    && (forall k :: k in m.vals <==> k in m.keys)
  }

  function Empty(ordering: Ordering): (m: LinkedMap)
    ensures Valid(m) && m.ordering == ordering && |m.keys| == 0 && m.vals == map[]
  {
    LinkedMap(ordering, [], map[])
  }

  /** `s` with `k` unlinked, the others in their old relative order. */
  function Without(s: seq<Key>, k: Key): (r: seq<Key>)
    ensures forall x :: x in r <==> x in s && x != k
    ensures Distinct(s) ==> Distinct(r)
    ensures Distinct(s) && k in s ==> |r| == |s| - 1
    ensures k !in s ==> r == s
  {
    if |s| == 0 then []
    else if s[0] == k then Without(s[1..], k)
    else
      var w := Without(s[1..], k);
      assert Distinct(s) ==> s[0] !in s[1..] && Distinct(s[1..]);
      assert forall i :: 0 < i < |[s[0]] + w| ==> ([s[0]] + w)[i] == w[i - 1];
      [s[0]] + w
  }

  /** Unlinking keeps the relative order of the others: it acts on each part
      of a split list separately, dropping `k` and keeping every other key. */
  lemma {:induction false} WithoutKeepsOrder(a: seq<Key>, b: seq<Key>, k: Key)
    ensures Without(a + b, k) == Without(a, k) + Without(b, k)
    ensures forall x :: x != k ==> Without([x], k) == [x]
    decreases |a|
  {
    if |a| == 0 {
      assert a + b == b;
    } else {
      assert (a + b)[0] == a[0] && (a + b)[1..] == a[1..] + b;
      WithoutKeepsOrder(a[1..], b, k);
      if a[0] != k {
        assert [a[0]] + (Without(a[1..], k) + Without(b, k)) == ([a[0]] + Without(a[1..], k)) + Without(b, k);
      }
    }
    forall x | x != k ensures Without([x], k) == [x] {
      assert [x][1..] == [];
    }
  }

  /** `afterNodeAccess`: relink a resident entry at the most-recent end. */
  function MoveToEnd(m: LinkedMap, k: Key): (r: LinkedMap)
    requires Valid(m) && k in m.vals
    ensures Valid(r) && r.vals == m.vals && r.ordering == m.ordering
    ensures |r.keys| == |m.keys| && r.keys[|r.keys| - 1] == k
  {
    m.(keys := Without(m.keys, k) + [k])
  }

  /** In front of the relinked key, the others keep their old relative order. */
  lemma MoveToEndKeepsOthersInOrder(m: LinkedMap, k: Key)
    requires Valid(m) && k in m.vals
    ensures var r := MoveToEnd(m, k);
      r.keys[..|r.keys| - 1] == Without(m.keys, k)
  {
  }

  /** Unlink and drop the head of the list, the entry `removeEldestEntry` is shown. */
  function RemoveEldest(m: LinkedMap): (r: LinkedMap)
    requires Valid(m) && |m.keys| > 0
    ensures Valid(r) && r.ordering == m.ordering
    ensures r.keys == m.keys[1..] && r.vals == m.vals - {m.keys[0]}
  {
    m.(keys := m.keys[1..], vals := m.vals - {m.keys[0]})
  }

  /** `LinkedHashMap.get`: a hit hands back the stored value and, in an
      access-ordered map only, makes the key the most recently used one. No
      value changes and a miss changes nothing. */
  function Get(m: LinkedMap, k: Key): (r: (Option<Value>, LinkedMap))
    requires Valid(m)
    ensures Valid(r.1) && r.1.ordering == m.ordering
    ensures r.0 == Find(m.vals, k)
    ensures r.1.vals == m.vals
    ensures k in m.vals && m.ordering == AccessOrder ==> r.1.keys == Without(m.keys, k) + [k]
    ensures k !in m.vals || m.ordering == InsertionOrder ==> r.1.keys == m.keys
  {
    if k in m.vals then
      (Some(m.vals[k]), if m.ordering == AccessOrder then MoveToEnd(m, k) else m)
    else
      (None, m)
  }

  /** Overwriting a resident key: the value is replaced and, in access order
      only, the key becomes the most recent; `removeEldestEntry` is not consulted. */
  function Overwrite(m: LinkedMap, k: Key, v: Value): (r: LinkedMap)
    requires Valid(m) && k in m.vals
    ensures Valid(r) && r.ordering == m.ordering
    ensures r.vals == m.vals[k := v]
    ensures m.ordering == AccessOrder ==> r.keys == Without(m.keys, k) + [k]
    ensures m.ordering == InsertionOrder ==> r.keys == m.keys
  {
    var updated := m.(vals := m.vals[k := v]);
    if m.ordering == AccessOrder then MoveToEnd(updated, k) else updated
  }

  /** Link a new entry at the tail of the list. */
  function Link(m: LinkedMap, k: Key, v: Value): (r: LinkedMap)
    requires Valid(m) && k !in m.vals
    ensures Valid(r) && r.ordering == m.ordering
    ensures r.keys == m.keys + [k] && r.vals == m.vals[k := v]
  {
    m.(keys := m.keys + [k], vals := m.vals[k := v])
  }

  /** Linking a new key at the tail, then `afterNodeInsertion`: the eldest
      entry is dropped exactly when the size has gone above `MaxEntries`. */
  function Insert(m: LinkedMap, k: Key, v: Value): (r: LinkedMap)
    requires Valid(m) && k !in m.vals
    ensures Valid(r) && r.ordering == m.ordering
    ensures |m.keys| < MaxEntries ==> r.keys == m.keys + [k] && r.vals == m.vals[k := v]
    ensures |m.keys| >= MaxEntries ==>
      r.keys == m.keys[1..] + [k] && r.vals == m.vals[k := v] - {m.keys[0]}
  {
    var linked := Link(m, k, v);
    if |linked.keys| > MaxEntries then
      assert linked.keys[1..] == m.keys[1..] + [k];
      RemoveEldest(linked)
    else linked
  }

  /** `LinkedHashMap.put`: overwrite a resident key, insert a new one. Either
      way the key then maps to `v`, and a map within the bound stays within it. */
  function Put(m: LinkedMap, k: Key, v: Value): (r: LinkedMap)
    requires Valid(m)
    ensures Valid(r) && r.ordering == m.ordering
    ensures Find(r.vals, k) == Some(v)
    ensures |m.keys| <= MaxEntries ==> |r.keys| <= MaxEntries
  {
    if k in m.vals then Overwrite(m, k, v) else Insert(m, k, v)
  }

  /** A put of a new key into a full map removes exactly one other key, the
      eldest in the map's order, and leaves every other entry as it was. */
  lemma PutIntoFullEvictsEldest(m: LinkedMap, k: Key, v: Value)
    requires Valid(m) && k !in m.vals && |m.keys| == MaxEntries
    ensures var r := Put(m, k, v);
      && r.keys == m.keys[1..] + [k]
      && r.vals == m.vals[k := v] - {m.keys[0]}
      && r.vals.Keys == m.vals.Keys - {m.keys[0]} + {k}
      && (forall x :: x in m.vals && x != m.keys[0] ==> r.vals[x] == m.vals[x])
  {
  }

  /** One call the demos make on a map. */
  datatype Op = PutOp(key: Key, value: Value) | GetOp(key: Key)

  function Step(m: LinkedMap, op: Op): (r: LinkedMap)
    requires Valid(m)
    ensures Valid(r) && r.ordering == m.ordering
    ensures |m.keys| <= MaxEntries ==> |r.keys| <= MaxEntries
    ensures op.key in m.vals && m.ordering == AccessOrder ==>
      r.keys == Without(m.keys, op.key) + [op.key]
    ensures op.key in m.vals && m.ordering == InsertionOrder ==> r.keys == m.keys
    ensures op.key !in m.vals && op.GetOp? ==> r.keys == m.keys
    ensures op.key !in m.vals && op.PutOp? && |m.keys| < MaxEntries ==> r.keys == m.keys + [op.key]
    ensures op.key !in m.vals && op.PutOp? && |m.keys| >= MaxEntries ==>
      r.keys == (m.keys + [op.key])[1..]
  {
    match op
    case PutOp(k, v) => Put(m, k, v)
    case GetOp(k) => Get(m, k).1
  }

  /** The map a sequence of calls builds from a fresh map: it never holds more
      than `MaxEntries` entries. */
  function Run(ordering: Ordering, ops: seq<Op>): (m: LinkedMap)
    ensures Valid(m) && m.ordering == ordering
    ensures |m.keys| <= MaxEntries
    decreases |ops|
  {
    if |ops| == 0 then Empty(ordering)
    else Step(Run(ordering, ops[..|ops| - 1]), ops[|ops| - 1])
  }

  /* ---------- LRU: the list is ordered by recency of use ---------- */

  /** Index of the last call in `ops` that names `k`, or -1: the reference
      notion of "when was `k` last used". */
  function LastUse(ops: seq<Op>, k: Key): (i: int)
    ensures -1 <= i < |ops|
    ensures 0 <= i ==> ops[i].key == k
    ensures forall j :: i < j < |ops| ==> ops[j].key != k
  {
    if |ops| == 0 then -1
    else if ops[|ops| - 1].key == k then |ops| - 1
    else LastUse(ops[..|ops| - 1], k)
  }

  ghost predicate RecencyOrdered(keys: seq<Key>, ops: seq<Op>) {
    forall i, j :: 0 <= i < j < |keys| ==> LastUse(ops, keys[i]) < LastUse(ops, keys[j])
  }

  lemma {:induction false} WithoutKeepsRecencyOrder(s: seq<Key>, k: Key, ops: seq<Op>)
    requires RecencyOrdered(s, ops)
    ensures RecencyOrdered(Without(s, k), ops)
  {
    if |s| > 0 {
      DropEldestKeepsRecencyOrder(s, ops);
      WithoutKeepsRecencyOrder(s[1..], k, ops);
      if s[0] != k {
        ConsKeepsRecencyOrder(s, Without(s[1..], k), ops);
      }
    }
  }

  /** Keeping the head of an ordered list in front of an ordered selection of
      its tail gives an ordered list. */
  lemma ConsKeepsRecencyOrder(s: seq<Key>, w: seq<Key>, ops: seq<Op>)
    requires |s| > 0 && RecencyOrdered(s, ops) && RecencyOrdered(w, ops)
    requires forall x :: x in w ==> x in s[1..]
    ensures RecencyOrdered([s[0]] + w, ops)
  {
    var r := [s[0]] + w;
    forall i, j | 0 <= i < j < |r|
      ensures LastUse(ops, r[i]) < LastUse(ops, r[j])
    {
      assert r[j] == w[j - 1];
      if i == 0 {
        assert w[j - 1] in s[1..];
        var t :| 0 <= t < |s| - 1 && s[1..][t] == w[j - 1];
        assert s[t + 1] == r[j];
      } else {
        assert r[i] == w[i - 1];
      }
    }
  }

  /** Appending the key the latest call named keeps the order, when every
      earlier key was last used before that call. */
  lemma AppendLatestKeepsRecencyOrder(s: seq<Key>, ops: seq<Op>)
    requires |ops| > 0
    requires ops[|ops| - 1].key !in s
    requires RecencyOrdered(s, ops[..|ops| - 1])
    ensures RecencyOrdered(s + [ops[|ops| - 1].key], ops)
  {
    var prev := ops[..|ops| - 1];
    var k := ops[|ops| - 1].key;
    var r := s + [k];
    forall i, j | 0 <= i < j < |r|
      ensures LastUse(ops, r[i]) < LastUse(ops, r[j])
    {
      assert r[i] == s[i] && r[i] != k;
      assert LastUse(ops, r[i]) == LastUse(prev, r[i]);
      if j < |s| {
        assert r[j] == s[j] && r[j] != k;
      }
    }
  }

  /** Dropping the head of a list keeps it ordered. */
  lemma DropEldestKeepsRecencyOrder(s: seq<Key>, ops: seq<Op>)
    requires |s| > 0 && RecencyOrdered(s, ops)
    ensures RecencyOrdered(s[1..], ops)
  {
    var t := s[1..];
    forall i, j | 0 <= i < j < |t|
      ensures LastUse(ops, t[i]) < LastUse(ops, t[j])
    {
      assert t[i] == s[i + 1] && t[j] == s[j + 1];
    }
  }

  /** A call that does not name any listed key leaves the list's order intact. */
  lemma UnnamedKeepsRecencyOrder(s: seq<Key>, ops: seq<Op>)
    requires |ops| > 0 && ops[|ops| - 1].key !in s
    requires RecencyOrdered(s, ops[..|ops| - 1])
    ensures RecencyOrdered(s, ops)
  {
    forall i, j | 0 <= i < j < |s|
      ensures LastUse(ops, s[i]) < LastUse(ops, s[j])
    {
      assert s[i] != ops[|ops| - 1].key && s[j] != ops[|ops| - 1].key;
    }
  }

  /** The LRU map's list runs from least to most recently used key: each
      resident key was last put or read before every key linked after it. */
  lemma {:induction false} LruIsRecencyOrdered(ops: seq<Op>)
    ensures RecencyOrdered(Run(AccessOrder, ops).keys, ops)
  {
    if |ops| > 0 {
      var prev := ops[..|ops| - 1];
      var op := ops[|ops| - 1];
      var k := op.key;
      var m := Run(AccessOrder, prev);
      LruIsRecencyOrdered(prev);
      var r := Run(AccessOrder, ops);
      assert r == Step(m, op);
      if k in m.vals {
        WithoutKeepsRecencyOrder(m.keys, k, prev);
        AppendLatestKeepsRecencyOrder(Without(m.keys, k), ops);
      } else if op.GetOp? {
        UnnamedKeepsRecencyOrder(m.keys, ops);
      } else {
        AppendLatestKeepsRecencyOrder(m.keys, ops);
        if |m.keys| >= MaxEntries {
          DropEldestKeepsRecencyOrder(m.keys + [k], ops);
        }
      }
    }
  }

  /** When a new key overflows the LRU map, the key it evicts is the resident
      key whose last use is the oldest. */
  lemma LruEvictsLeastRecentlyUsed(ops: seq<Op>, k: Key, v: Value)
    requires var m := Run(AccessOrder, ops); k !in m.vals && |m.keys| == MaxEntries
    ensures var m := Run(AccessOrder, ops);
      && m.keys[0] !in Put(m, k, v).vals
      && (forall x :: x in m.vals ==> LastUse(ops, m.keys[0]) <= LastUse(ops, x))
  {
    var m := Run(AccessOrder, ops);
    LruIsRecencyOrdered(ops);
    forall x | x in m.vals
      ensures LastUse(ops, m.keys[0]) <= LastUse(ops, x)
    {
      var j :| 0 <= j < |m.keys| && m.keys[j] == x;
      if j > 0 {
        assert LastUse(ops, m.keys[0]) < LastUse(ops, m.keys[j]);
      }
    }
  }

  /* ---------- FIFO: the list is ordered by insertion ---------- */

  /** The keys of the puts in `ops`, in call order. */
  function PutKeys(ops: seq<Op>): (r: seq<Key>)
    ensures |r| <= |ops|
    ensures forall x :: x in r <==> exists i :: 0 <= i < |ops| && ops[i].PutOp? && ops[i].key == x
    decreases |ops|
  {
    if |ops| == 0 then []
    else
      var prev := ops[..|ops| - 1];
      var last := ops[|ops| - 1];
      assert forall i :: 0 <= i < |prev| ==> prev[i] == ops[i];
      PutKeys(prev) + (if last.PutOp? then [last.key] else [])
  }

  /** The last `n` elements of `s` (all of `s` when it is shorter). */
  function Newest(s: seq<Key>, n: nat): (r: seq<Key>)
    ensures |r| == if |s| <= n then |s| else n
    ensures forall i :: 0 <= i < |r| ==> r[i] == s[|s| - |r| + i]
  {
    if |s| <= n then s else s[|s| - n..]
  }

  /** The put keys of all but the last call, and how the last call extends them. */
  lemma PutKeysOfPrefix(ops: seq<Op>)
    requires |ops| > 0 && Distinct(PutKeys(ops))
    ensures var p := PutKeys(ops[..|ops| - 1]);
      && PutKeys(ops) == p + (if ops[|ops| - 1].PutOp? then [ops[|ops| - 1].key] else [])
      && Distinct(p)
      && (ops[|ops| - 1].PutOp? ==> ops[|ops| - 1].key !in p)
  {
    var p := PutKeys(ops[..|ops| - 1]);
    var q := PutKeys(ops);
    forall i, j | 0 <= i < j < |p| ensures p[i] != p[j] {
      assert q[i] == p[i] && q[j] == p[j];
    }
    if ops[|ops| - 1].PutOp? {
      forall i | 0 <= i < |p| ensures p[i] != ops[|ops| - 1].key {
        assert q[i] == p[i] && q[|p|] == ops[|ops| - 1].key;
      }
    }
  }

  /** Inserting a key nobody inserted before into a FIFO map holding the
      newest insertions keeps it holding the newest insertions. */
  lemma FifoInsertKeepsNewest(m: LinkedMap, p: seq<Key>, k: Key)
    requires m.keys == Newest(p, MaxEntries) && |m.keys| <= MaxEntries && k !in p
    ensures k !in m.keys
    ensures |m.keys| < MaxEntries ==> m.keys + [k] == Newest(p + [k], MaxEntries)
    ensures |m.keys| >= MaxEntries ==> (m.keys + [k])[1..] == Newest(p + [k], MaxEntries)
  {
    var q := p + [k];
    var n := Newest(q, MaxEntries);
    forall i | 0 <= i < |m.keys| ensures m.keys[i] != k {
      assert m.keys[i] == p[|p| - |m.keys| + i];
    }
    if |m.keys| < MaxEntries {
      assert m.keys == p;
    } else {
      forall i | 0 <= i < |n| ensures n[i] == (m.keys + [k])[1..][i] {
        assert n[i] == q[|p| - 2 + i];
        if i < 2 {
          assert m.keys[i + 1] == p[|p| - 3 + i + 1];
        }
      }
    }
  }

  /** When every put inserts a distinct key, the FIFO map holds exactly the
      three most recently inserted keys, oldest first, whatever gets happened
      in between. */
  lemma {:induction false} FifoKeepsNewestInserts(ops: seq<Op>)
    requires Distinct(PutKeys(ops))
    ensures Run(InsertionOrder, ops).keys == Newest(PutKeys(ops), MaxEntries)
  {
    if |ops| > 0 {
      var prev := ops[..|ops| - 1];
      var op := ops[|ops| - 1];
      var m := Run(InsertionOrder, prev);
      PutKeysOfPrefix(ops);
      FifoKeepsNewestInserts(prev);
      if op.PutOp? {
        FifoInsertKeepsNewest(m, PutKeys(prev), op.key);
      }
    }
  }

  /* ---------- the demo traces ---------- */

  /** A put of a new key into a map with room links it at the tail and evicts nothing. */
  lemma PutIntoRoomAppends(m: LinkedMap, k: Key, v: Value)
    requires Valid(m) && k !in m.vals && |m.keys| < MaxEntries
    ensures Put(m, k, v).keys == m.keys + [k] && Put(m, k, v).vals == m.vals[k := v]
  {
  }

  /** Three puts of distinct keys into a fresh map list them in put order. */
  lemma FillThree(o: Ordering, a: Key, va: Value, b: Key, vb: Value, c: Key, vc: Value)
    requires a != b && b != c && a != c
    ensures var f := Put(Put(Put(Empty(o), a, va), b, vb), c, vc);
      f.keys == [a, b, c] && f.vals == map[a := va, b := vb, c := vc]
  {
    var m1 := Put(Empty(o), a, va);
    PutIntoRoomAppends(Empty(o), a, va);
    var m2 := Put(m1, b, vb);
    PutIntoRoomAppends(m1, b, vb);
    PutIntoRoomAppends(m2, c, vc);
  }

  /** A hit on the eldest key of an access-ordered map moves it to the tail. */
  lemma GetEldestMovesToEnd(m: LinkedMap)
    requires Valid(m) && m.ordering == AccessOrder && |m.keys| > 0
    ensures Get(m, m.keys[0]).1.keys == m.keys[1..] + [m.keys[0]]
    ensures Get(m, m.keys[0]).1.vals == m.vals
  {
    assert m.keys[0] !in m.keys[1..];
    assert Without(m.keys, m.keys[0]) == Without(m.keys[1..], m.keys[0]);
  }

  /** The last step of the LRU trace: with `c` eldest, putting the new key `d`
      evicts `c` and keeps the values of `a` and `b`. */
  lemma LruTraceEviction(touched: LinkedMap, a: Key, va: Value, b: Key, vb: Value, c: Key, vc: Value, d: Key, vd: Value)
    requires a != b && a != c && a != d && b != c && b != d && c != d
    requires Valid(touched) && touched.ordering == AccessOrder
    requires touched.keys == [c, a, b] && touched.vals == map[a := va, b := vb, c := vc]
    ensures Put(touched, d, vd).keys == [a, b, d]
    ensures Put(touched, d, vd).vals == map[a := va, b := vb, d := vd]
  {
    PutIntoFullEvictsEldest(touched, d, vd);
    EvictFromThree(a, va, b, vb, c, vc, d, vd);
  }

  /** Replacing `c` by `d` in a three-entry table. */
  lemma EvictFromThree(a: Key, va: Value, b: Key, vb: Value, c: Key, vc: Value, d: Key, vd: Value)
    requires c != a && c != b && c != d
    ensures map[a := va, b := vb, c := vc][d := vd] - {c} == map[a := va, b := vb, d := vd]
  {
  }

  /** The LRU trace over any four distinct keys: put a, b, c; get a, get b
      leaves the order c, a, b; putting d then evicts c and leaves a, b, d
      with their values. */
  lemma LruTrace(a: Key, va: Value, b: Key, vb: Value, c: Key, vc: Value, d: Key, vd: Value)
    requires a != b && a != c && a != d && b != c && b != d && c != d
    ensures var filled := Put(Put(Put(Empty(AccessOrder), a, va), b, vb), c, vc);
      var touched := Get(Get(filled, a).1, b).1;
      var last := Put(touched, d, vd);
      && filled.keys == [a, b, c]
      && Get(filled, a).0 == Some(va)
      && touched.keys == [c, a, b]
      && last.keys == [a, b, d]
      && last.vals == map[a := va, b := vb, d := vd]
  {
    var filled := Put(Put(Put(Empty(AccessOrder), a, va), b, vb), c, vc);
    FillThree(AccessOrder, a, va, b, vb, c, vc);
    GetEldestMovesToEnd(filled);
    var afterA := Get(filled, a).1;
    assert afterA.keys == [b, c, a];
    GetEldestMovesToEnd(afterA);
    var touched := Get(afterA, b).1;
    LruTraceEviction(touched, a, va, b, vb, c, vc, d, vd);
  }

  /** LRU demo: put A, B, C; get A, get B leaves the order C, A, B; putting D
      then evicts C and leaves A, B, D with their values. */
  lemma LruDemoTrace()
    ensures var filled := Put(Put(Put(Empty(AccessOrder), "A", "ValueA"), "B", "ValueB"), "C", "ValueC");
      var touched := Get(Get(filled, "A").1, "B").1;
      var last := Put(touched, "D", "ValueD");
      && filled.keys == ["A", "B", "C"]
      && Get(filled, "A").0 == Some("ValueA")
      && touched.keys == ["C", "A", "B"]
      && last.keys == ["A", "B", "D"]
      && last.vals == map["A" := "ValueA", "B" := "ValueB", "D" := "ValueD"]
  {
    LruTrace("A", "ValueA", "B", "ValueB", "C", "ValueC", "D", "ValueD");
  }

  /** A put of a new key into a full three-entry map: the list shifts by one
      and the new key is linked at the tail. */
  lemma PutIntoFullShifts(m: LinkedMap, s: Key, vs: Value)
    requires Valid(m) && |m.keys| == MaxEntries && s !in m.keys
    ensures var r := Put(m, s, vs);
      && Valid(r) && r.ordering == m.ordering
      && r.keys == [m.keys[1], m.keys[2], s]
      && r.vals == m.vals[s := vs] - {m.keys[0]}
  {
    PutIntoFullEvictsEldest(m, s, vs);
  }

  /** Two puts of new keys into a full FIFO map: each evicts the eldest
      insertion and links the new key at the tail. */
  lemma FifoTraceEvictions(m: LinkedMap, s: Key, vs: Value, t: Key, vt: Value)
    requires Valid(m) && m.ordering == InsertionOrder && |m.keys| == MaxEntries
    requires s !in m.keys && t !in m.keys && s != t
    ensures Put(m, s, vs).keys == [m.keys[1], m.keys[2], s]
    ensures Put(Put(m, s, vs), t, vt).keys == [m.keys[2], s, t]
    ensures Put(m, s, vs).vals == m.vals[s := vs] - {m.keys[0]}
    ensures Put(Put(m, s, vs), t, vt).vals == (m.vals[s := vs] - {m.keys[0]})[t := vt] - {m.keys[1]}
  {
    PutIntoFullShifts(m, s, vs);
    var m1 := Put(m, s, vs);
    assert t !in m1.keys;
    PutIntoFullShifts(m1, t, vt);
  }

  /** The FIFO trace over any five distinct keys: put p, q, r; two gets of q
      keep the order; putting s evicts p and putting t then evicts q. */
  lemma FifoTrace(p: Key, vp: Value, q: Key, vq: Value, r: Key, vr: Value, s: Key, vs: Value, t: Key, vt: Value)
    requires p != q && p != r && p != s && p != t && q != r && q != s && q != t
    requires r != s && r != t && s != t
    ensures var filled := Put(Put(Put(Empty(InsertionOrder), p, vp), q, vq), r, vr);
      var read := Get(Get(filled, q).1, q).1;
      var withS := Put(read, s, vs);
      var withT := Put(withS, t, vt);
      && filled.keys == [p, q, r]
      && read == filled
      && withS.keys == [q, r, s]
      && withT.keys == [r, s, t]
      && withS.vals == map[q := vq, r := vr, s := vs]
      && withT.vals == map[r := vr, s := vs, t := vt]
  {
    var filled := Put(Put(Put(Empty(InsertionOrder), p, vp), q, vq), r, vr);
    FillThree(InsertionOrder, p, vp, q, vq, r, vr);
    assert Get(filled, q).1 == filled;
    FifoTraceEvictions(filled, s, vs, t, vt);
    EvictEldestOfThree(p, vp, q, vq, r, vr, s, vs);
    EvictEldestOfThree(q, vq, r, vr, s, vs, t, vt);
  }

  /** Replacing the first of three entries by a new key `d`. */
  lemma EvictEldestOfThree(a: Key, va: Value, b: Key, vb: Value, c: Key, vc: Value, d: Key, vd: Value)
    requires a != b && a != c && a != d
    ensures map[a := va, b := vb, c := vc][d := vd] - {a} == map[b := vb, c := vc, d := vd]
  {
  }

  /** FIFO demo: put P, Q, R; two gets of Q keep the order; putting S evicts P
      (giving Q, R, S) and putting T then evicts Q (giving R, S, T), each
      surviving key keeping its value. */
  lemma FifoDemoTrace()
    ensures var filled := Put(Put(Put(Empty(InsertionOrder), "P", "ValueP"), "Q", "ValueQ"), "R", "ValueR");
      var read := Get(Get(filled, "Q").1, "Q").1;
      var withS := Put(read, "S", "ValueS");
      var withT := Put(withS, "T", "ValueT");
      && filled.keys == ["P", "Q", "R"]
      && read == filled
      && withS.keys == ["Q", "R", "S"]
      && withT.keys == ["R", "S", "T"]
      && withS.vals == map["Q" := "ValueQ", "R" := "ValueR", "S" := "ValueS"]
      && withT.vals == map["R" := "ValueR", "S" := "ValueS", "T" := "ValueT"]
  {
    FifoTrace("P", "ValueP", "Q", "ValueQ", "R", "ValueR", "S", "ValueS", "T", "ValueT");
  }
}
