/**
 * The durable store of src/database.hpp: one table `cache_entries` with
 * `key` as primary key and columns `value`, `expiry` and `created_at`.
 * The SQL engine is abstracted as a map from key to row; instants are whole
 * seconds of wall-clock time, and "now" is the database's CURRENT_TIMESTAMP,
 * passed in. Whether a statement throws (lost connection, query error) is an
 * input `fault`; the transaction is then never committed.
 */
module Database {
  import opened Wrappers

  /** A row of cache_entries (the key is the map's key). */
  datatype Row = Row(value: string, expiry: int, createdAt: int)

  type Table = map<string, Row>

  /**
   * INSERT ... ON CONFLICT (key) DO UPDATE SET value, expiry: the last write
   * wins; created_at takes its column default on insert and is kept on conflict.
   */
  function Upserted(t: Table, key: string, value: string, expiry: int, now: int): (t': Table)
    ensures key in t' && t'[key].value == value && t'[key].expiry == expiry
    ensures key in t ==> t'[key].createdAt == t[key].createdAt
    ensures key !in t ==> t'[key].createdAt == now
    ensures t'.Keys == t.Keys + {key}
    ensures forall k :: k in t && k != key ==> t'[k] == t[k]
  {
    var created := if key in t then t[key].createdAt else now;
    t[key := Row(value, expiry, created)]
  }

  /** SELECT value WHERE key = $1 AND expiry > CURRENT_TIMESTAMP. */
  function Lookup(t: Table, key: string, now: int): (r: Option<string>)
    ensures r.Some? <==> key in t && now < t[key].expiry
    ensures r.Some? ==> r.value == t[key].value
  {
    if key in t && t[key].expiry > now then Some(t[key].value) else None
  }

  /** DELETE WHERE expiry <= CURRENT_TIMESTAMP. */
  function Swept(t: Table, now: int): (t': Table)
    ensures forall k :: k in t' <==> k in t && now < t[k].expiry
    ensures forall k :: k in t' ==> t'[k] == t[k]
  {
    map k | k in t && t[k].expiry > now :: t[k]
  }

  /** At a fixed instant, sweeping never changes what a lookup answers. */
  lemma SweepKeepsLookups(t: Table, now: int, key: string)
    ensures Lookup(Swept(t, now), key, now) == Lookup(t, key, now)
  {
  }

  /** Sweeping twice at the same instant is the same as sweeping once. */
  lemma SweepIdempotent(t: Table, now: int)
    ensures Swept(Swept(t, now), now) == Swept(t, now)
  {
  }

  /** A later sweep subsumes an earlier one (the periodic cleanup at growing instants). */
  lemma SweepsCompose(t: Table, earlier: int, later: int)
    requires earlier <= later
    ensures Swept(Swept(t, earlier), later) == Swept(t, later)
  {
    var a, b := Swept(Swept(t, earlier), later), Swept(t, later);
    assert a.Keys == b.Keys;
  }

  /** A successful put is visible to get exactly while the new expiry lies ahead. */
  lemma PutThenLookup(t: Table, key: string, value: string, expiry: int, created: int, now: int)
    ensures Lookup(Upserted(t, key, value, expiry, created), key, now)
            == (if now < expiry then Some(value) else None)
  {
  }

  /** A put on one key leaves the lookups of every other key as they were. */
  lemma PutLeavesOtherKeys(t: Table, key: string, value: string, expiry: int, created: int, other: string, now: int)
    requires other != key
    ensures Lookup(Upserted(t, key, value, expiry, created), other, now) == Lookup(t, other, now)
  {
  }

  /** DatabaseConnection after construction: the table that already exists in the server. */
  class DatabaseConnection {
    var table: Table

    constructor (existing: Table)
      ensures table == existing
    {
      table := existing;
    }

    /** put (database.hpp:123-147): upsert; a failed statement yields false and changes nothing. */
    method Put(key: string, value: string, expiry: int, now: int, fault: bool) returns (ok: bool)
      modifies this
      ensures ok == !fault
      ensures table == if fault then old(table) else Upserted(old(table), key, value, expiry, now)
    {
      if fault {
        return false;
      }
      table := Upserted(table, key, value, expiry, now);
      return true;
    }

    /** get (database.hpp:149-170): the unexpired value, or absent; a failure is absent too. */
    method Get(key: string, now: int, fault: bool) returns (r: Option<string>)
      ensures fault ==> r == None
      ensures !fault ==> (r.Some? <==> key in table && now < table[key].expiry)
      ensures r.Some? ==> r.value == table[key].value
    {
      if fault {
        return None;
      }
      r := Lookup(table, key, now);
    }

    /** cleanup_expired (database.hpp:172-182): a failure is swallowed and changes nothing. */
    method CleanupExpired(now: int, fault: bool)
      modifies this
      ensures table == if fault then old(table) else Swept(old(table), now)
    {
      if !fault {
        table := Swept(table, now);
      }
    }
  }
}
