/** Value types shared by every part of the model: the demos key and value
    everything by Java `String`, and a Java `null` becomes `None`. */
module Common {

  /** A Java reference that may be null: `None` stands for null. */
  datatype Option<T> = None | Some(value: T)

  type Key = string
  type Value = string

  /** A `Map<String, String>`: the in-memory "database" and the pending-write map. */
  type Table = map<Key, Value>

  /** `Map.get`: the value stored under `k`, or null. */
  function Find(t: Table, k: Key): (r: Option<Value>)
    ensures r.Some? <==> k in t
    ensures r.Some? ==> r.value == t[k]
  {
    if k in t then Some(t[k]) else None
  }

  /** The database write both demo classes share (`simulateDbWrite`,
      `simulateDatabaseWrite`): a `put` into the database map, the latency left out. */
  function DbWrite(db: Table, k: Key, v: Value): (r: Table)
    ensures Find(r, k) == Some(v)
    ensures forall x :: x != k ==> Find(r, x) == Find(db, x)
  {
    db[k := v]
  }
}
