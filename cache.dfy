/**
 * LRUCache<std::string, std::string> of src/cache.hpp as a class whose
 * fields are updated in place. The monotonic clock (steady_clock) and the
 * wall clock (system_clock) are the parameters monoNow and wallNow, in
 * seconds; whether a durable-store statement fails is an input. Each method
 * is proved to have the effect that module CacheState gives it.
 */
module Cache {
  import opened Wrappers
  import opened CacheState
  import Database

  /** std::find over the recency list: the first index holding key, or |list| when absent. */
  method Find(list: seq<string>, key: string) returns (i: nat)
    ensures i <= |list|
    ensures i < |list| ==> list[i] == key
    ensures forall j :: 0 <= j < i ==> list[j] != key
  {
    i := 0;
    while i < |list| && list[i] != key
      invariant i <= |list|
      invariant forall j :: 0 <= j < i ==> list[j] != key
    {
      i := i + 1;
    }
  }

  class LRUCache {
    const capacity: nat
    const defaultTtl: int
    const db: Database.DatabaseConnection
    var cacheMap: map<string, Entry<string>>
    var lruList: seq<string>

    /** Both in-memory structures as one value. */
    function Mem(): Memory<string, string>
      reads this
    {
      Memory(cacheMap, lruList)
    }

    /** The cleanup thread the constructor starts is not part of this model. */
    constructor (size: nat, ttl: int, store: Database.DatabaseConnection)
      ensures capacity == size && defaultTtl == ttl && db == store
      ensures Mem() == Empty()
    {
      capacity := size;
      defaultTtl := ttl;
      db := store;
      cacheMap := map[];
      lruList := [];
    }

    /** evict() (cache.hpp:32-40). */
    method Evict()
      modifies this
      ensures Mem() == EvictStep(old(Mem()))
      ensures InStep(old(Mem())) ==> InStep(Mem())
    {
      if InStep(Mem()) {
        EvictStepKeepsInStep(Mem());
      }
      if |lruList| > 0 {
        var last := lruList[|lruList| - 1];
        lruList := lruList[..|lruList| - 1];
        cacheMap := cacheMap - {last};
      }
    }

    /** Moves the first occurrence of key to the list front (cache.hpp:88-92, 113-117). */
    method MoveToFront(key: string)
      modifies this
      ensures cacheMap == old(cacheMap)
      ensures lruList == [key] + RemoveFirst(old(lruList), key)
    {
      var i := Find(lruList, key);
      RemoveFirstAt(lruList, key, i);
      if i < |lruList| {
        lruList := lruList[..i] + lruList[i + 1..];
      }
      lruList := [key] + lruList;
    }

    /**
     * put (cache.hpp:72-102). The durable write runs through std::async, whose
     * future is destroyed before put returns, so it has completed by then;
     * its boolean result is ignored.
     */
    method Put(key: string, value: string, ttl: int, monoNow: int, wallNow: int, dbFault: bool)
      modifies this, db
      ensures Mem() == PutStep(old(Mem()), capacity, key, Entry(value, monoNow + EffectiveTtl(ttl, defaultTtl)))
      ensures db.table == if dbFault then old(db.table)
                          else Database.Upserted(old(db.table), key, value, wallNow + EffectiveTtl(ttl, defaultTtl), wallNow)
      ensures old(Valid(Mem(), capacity)) ==> Valid(Mem(), capacity)
    {
      var t := ttl;
      if t == 0 {
        t := defaultTtl;
      }
      var written := db.Put(key, value, wallNow + t, wallNow, dbFault);
      PutInMemory(key, Entry(value, monoNow + t));
    }

    /** The in-memory part of put (cache.hpp:85-101): replace and move to front, or evict when full and insert. */
    method PutInMemory(key: string, e: Entry<string>)
      modifies this
      ensures Mem() == PutStep(old(Mem()), capacity, key, e)
      ensures old(Valid(Mem(), capacity)) ==> Valid(Mem(), capacity)
    {
      if InStep(Mem()) {
        PutKeepsValid(Mem(), capacity, key, e);
      }
      if key in cacheMap {
        cacheMap := cacheMap[key := e];
        MoveToFront(key);
      } else {
        if |cacheMap| >= capacity {
          Evict();
        }
        cacheMap := cacheMap[key := e];
        lruList := [key] + lruList;
      }
    }

    /**
     * get (cache.hpp:104-134): a fresh entry answers from memory; an expired
     * one is erased from the map only; a miss reads through to the store and
     * re-inserts what it finds with put(key, value), i.e. the default TTL.
     * dbFault is the failure of the store's get, putFault that of the write
     * the re-insertion issues.
     */
    method Get(key: string, monoNow: int, wallNow: int, dbFault: bool, putFault: bool) returns (r: Option<string>)
      modifies this, db
      ensures var stored := if dbFault then None else Database.Lookup(old(db.table), key, wallNow);
              (r, Mem()) == GetStep(old(Mem()), capacity, defaultTtl, key, monoNow, stored)
      ensures var stored := if dbFault then None else Database.Lookup(old(db.table), key, wallNow);
              db.table == if !(key in old(cacheMap) && monoNow <= old(cacheMap)[key].expiry) && stored.Some? && !putFault
                          then Database.Upserted(old(db.table), key, stored.value, wallNow + EffectiveTtl(0, defaultTtl), wallNow)
                          else old(db.table)
      ensures old(Valid(Mem(), capacity)) && (key in old(cacheMap) ==> monoNow <= old(cacheMap)[key].expiry)
              ==> Valid(Mem(), capacity)
    {
      r := ProbeMemory(key, monoNow);
      if r.None? {
        r := db.Get(key, wallNow, dbFault);
        if r.Some? {
          Put(key, r.value, 0, monoNow, wallNow, putFault);
        }
      }
    }

    /** The in-memory phase of get (cache.hpp:106-123): a fresh entry moves to the front, an expired one leaves the map. */
    method ProbeMemory(key: string, monoNow: int) returns (r: Option<string>)
      modifies this
      ensures r.Some? <==> ProbeStep(old(Mem()), key, monoNow).Hit?
      ensures r.Some? ==> r.value == ProbeStep(old(Mem()), key, monoNow).value
      ensures Mem() == ProbeStep(old(Mem()), key, monoNow).after
      ensures old(Valid(Mem(), capacity)) && (key in old(cacheMap) ==> monoNow <= old(cacheMap)[key].expiry)
              ==> Valid(Mem(), capacity)
    {
      if key in cacheMap && monoNow <= cacheMap[key].expiry {
        HitKeepsInStep(Mem(), key, monoNow);
        r := Some(cacheMap[key].value);
        MoveToFront(key);
      } else {
        r := None;
        if key in cacheMap {
          cacheMap := cacheMap - {key};
        }
      }
    }

    /** clear() (cache.hpp:136-140): both structures emptied, the store untouched. */
    method Clear()
      modifies this
      ensures Mem() == Empty()
      ensures Valid(Mem(), capacity)
    {
      cacheMap := map[];
      lruList := [];
    }

    /** size() (cache.hpp:142). */
    function Size(): nat
      reads this
    {
      |cacheMap|
    }
  }

  /**
   * clear() empties memory only: a key written before it is still in the
   * store, so the next get answers it by reading through (the durable write
   * of put has completed before put returned).
   */
  method ClearedKeyReadsThrough(key: string, value: string, now: int) returns (size: nat, r: Option<string>)
    ensures size == 0
    ensures r == Some(value)
  {
    var store := new Database.DatabaseConnection(map[]);
    var cache := new LRUCache(3, 5, store);
    cache.Put(key, value, 0, now, now, false);
    cache.Clear();
    size := cache.Size();
    Database.PutThenLookup(map[], key, value, now + 5, now, now);
    r := cache.Get(key, now, now, false, false);
  }

  /** A fresh entry is served from memory until its deadline, inclusive; past it the store decides. */
  method TtlExpiry(key: string, value: string, now: int) returns (early: Option<string>, late: Option<string>)
    ensures early == Some(value)
    ensures late == None
  {
    var store := new Database.DatabaseConnection(map[]);
    var cache := new LRUCache(3, 5, store);
    cache.Put(key, value, 1, now, now, false);
    early := cache.Get(key, now + 1, now + 1, false, false);
    late := cache.Get(key, now + 2, now + 2, false, false);
  }
}
