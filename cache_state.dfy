/**
 * The in-memory state of LRUCache (src/cache.hpp) as a value: `cache_map`
 * from key to CacheEntry, and `lru_list`, the recency order with the most
 * recently used key at the front. Each function below is the effect of one
 * operation on that state; the class in module Cache is proved to have
 * exactly these effects. Nothing here assumes that the list and the map's
 * key set agree: InStep says when they do, and the lemmas say which
 * operations keep it and which one breaks it.
 */
module CacheState {
  import opened Wrappers

  /** CacheEntry: the value and its deadline on the monotonic clock. */
  datatype Entry<V> = Entry(value: V, expiry: int)

  /** cache_map and lru_list together. */
  datatype Memory<K, V> = Memory(entries: map<K, Entry<V>>, order: seq<K>)

  function Empty<K, V>(): Memory<K, V>
  {
    Memory(map[], [])
  }

  predicate NoDuplicates<K(==)>(s: seq<K>)
  {
    forall i, j :: 0 <= i < j < |s| ==> s[i] != s[j]
  }

  /** The intended invariant: the list holds exactly the map's keys, each once. */
  ghost predicate InStep<K(!new), V>(m: Memory<K, V>)
  {
    && NoDuplicates(m.order)
    && (forall k :: k in m.entries <==> k in m.order)
  }

  /**
   * The size bound the cache keeps. With capacity 0, put still inserts after
   * an eviction that finds nothing to evict, so one entry is the bound there.
   */
  function Bound(capacity: nat): nat
  {
    if capacity == 0 then 1 else capacity
  }

  /** The intended invariant together with the capacity bound. */
  ghost predicate Valid<K(!new), V>(m: Memory<K, V>, capacity: nat)
  {
    InStep(m) && |m.entries| <= Bound(capacity)
  }

  /** put's TTL argument: 0 selects the configured default (cache.hpp:74-75). */
  function EffectiveTtl(ttl: int, defaultTtl: int): int
  {
    if ttl == 0 then defaultTtl else ttl
  }

  /** lru_list.erase(std::find(..., key)) when found: drop the first occurrence. */
  function RemoveFirst<K(==)>(s: seq<K>, k: K): (r: seq<K>)
    ensures k in s ==> |r| == |s| - 1
    ensures k !in s ==> r == s
  {
    if s == [] then []
    else
      assert s == [s[0]] + s[1..];
      if s[0] == k then s[1..]
      else [s[0]] + RemoveFirst(s[1..], k)
  }

  /** Removing the first occurrence is cutting out the index std::find reports. */
  lemma {:induction false} RemoveFirstAt<K>(s: seq<K>, k: K, i: nat)
    requires i <= |s|
    requires i < |s| ==> s[i] == k
    requires forall j :: 0 <= j < i ==> s[j] != k
    ensures RemoveFirst(s, k) == if i < |s| then s[..i] + s[i + 1..] else s
  {
    if s == [] {
    } else if s[0] == k {
      assert i == 0;
      assert s[..0] + s[1..] == s[1..];
    } else {
      var t := s[1..];
      assert i > 0;
      assert forall j :: 0 <= j < i - 1 ==> t[j] != k by {
        forall j | 0 <= j < i - 1 ensures t[j] != k {
          assert t[j] == s[j + 1];
        }
      }
      RemoveFirstAt(t, k, i - 1);
      assert RemoveFirst(s, k) == [s[0]] + RemoveFirst(t, k);
      if i < |s| {
        CutBehindHead(s, i);
      } else {
        assert s == [s[0]] + t;
      }
    }
  }

  /** Cutting index i > 0 out of s keeps the head in front of the cut tail. */
  lemma CutBehindHead<K>(s: seq<K>, i: nat)
    requires 0 < i < |s|
    ensures s[..i] + s[i + 1..] == [s[0]] + (s[1..][..i - 1] + s[1..][i..])
  {
    assert s[..i] == [s[0]] + s[1..][..i - 1];
    assert s[i + 1..] == s[1..][i..];
  }

  /** The tail of a duplicate-free list is duplicate-free, lacks the head, and holds every other member. */
  lemma TailDistinct<K>(s: seq<K>)
    requires NoDuplicates(s) && s != []
    ensures NoDuplicates(s[1..])
    ensures s[0] !in s[1..]
    ensures forall x :: x != s[0] ==> (x in s[1..] <==> x in s)
  {
    var t := s[1..];
    forall i, j | 0 <= i < j < |t| ensures t[i] != t[j] {
      assert t[i] == s[i + 1] && t[j] == s[j + 1];
    }
    forall j | 0 <= j < |t| ensures t[j] != s[0] {
      assert t[j] == s[j + 1];
    }
    assert s == [s[0]] + t;
  }

  /** On a duplicate-free list, removing k removes every occurrence and nothing else. */
  lemma {:induction false} RemoveFirstKeepsDistinct<K>(s: seq<K>, k: K)
    requires NoDuplicates(s)
    ensures NoDuplicates(RemoveFirst(s, k))
    ensures k !in RemoveFirst(s, k)
    ensures forall x :: x != k ==> (x in RemoveFirst(s, k) <==> x in s)
  {
    if s != [] {
      TailDistinct(s);
      if s[0] != k {
        var t := s[1..];
        RemoveFirstKeepsDistinct(t, k);
        var r := RemoveFirst(t, k);
        assert s[0] !in r;
        PrependKeepsDistinct(s[0], r);
        assert RemoveFirst(s, k) == [s[0]] + r;
      }
    }
  }

  /** evict() (cache.hpp:32-40): pop the list's tail and erase that key from the map. */
  function EvictStep<K(==,!new), V>(m: Memory<K, V>): (r: Memory<K, V>)
    ensures r.entries.Keys <= m.entries.Keys
    ensures |r.order| == if m.order == [] then 0 else |m.order| - 1
    ensures m.order == [] ==> r == m
    ensures m.order != [] ==> r.order == m.order[..|m.order| - 1] && m.order[|m.order| - 1] !in r.entries
    ensures forall k :: k in m.entries && (m.order == [] || k != m.order[|m.order| - 1]) ==>
              k in r.entries && r.entries[k] == m.entries[k]
  {
    if m.order == [] then m
    else Memory(m.entries - {m.order[|m.order| - 1]}, m.order[..|m.order| - 1])
  }

  /** The memory side of put (cache.hpp:85-101), with the new entry e already built. */
  function PutStep<K(==,!new), V>(m: Memory<K, V>, capacity: nat, key: K, e: Entry<V>): (r: Memory<K, V>)
    ensures key in r.entries && r.entries[key] == e
    ensures r.order != [] && r.order[0] == key
  {
    if key in m.entries then
      Memory(m.entries[key := e], [key] + RemoveFirst(m.order, key))
    else
      var m' := if |m.entries| >= capacity then EvictStep(m) else m;
      Memory(m'.entries[key := e], [key] + m'.order)
  }

  /** The outcome of get's first, in-memory phase (cache.hpp:106-123). */
  datatype Probe<K, V> = Hit(value: V, after: Memory<K, V>) | Miss(after: Memory<K, V>)

  /** A fresh entry is a hit and moves to the front; an expired one is erased from the map ONLY. */
  function ProbeStep<K(==,!new), V>(m: Memory<K, V>, key: K, now: int): (r: Probe<K, V>)
    ensures r.Hit? <==> key in m.entries && now <= m.entries[key].expiry
    ensures r.Hit? ==> r.value == m.entries[key].value
    ensures r.Hit? ==> r.after.entries == m.entries && r.after.order != [] && r.after.order[0] == key
    ensures r.Miss? ==> key !in r.after.entries && r.after.order == m.order
    ensures r.Miss? ==> r.after.entries.Keys <= m.entries.Keys
    ensures r.Miss? ==> forall k :: k in m.entries && k != key ==> k in r.after.entries && r.after.entries[k] == m.entries[k]
  {
    if key !in m.entries then Miss(m)
    else if now <= m.entries[key].expiry then
      Hit(m.entries[key].value, Memory(m.entries, [key] + RemoveFirst(m.order, key)))
    else Miss(Memory(m.entries - {key}, m.order))
  }

  /**
   * The memory side of the whole get (cache.hpp:104-134), given what the
   * durable store answers on a miss: a stored value is re-inserted through
   * put with ttl 0, that is with the default TTL.
   */
  function GetStep<K(==,!new), V>(m: Memory<K, V>, capacity: nat, defaultTtl: int, key: K, now: int, stored: Option<V>)
    : (r: (Option<V>, Memory<K, V>))
    ensures ProbeStep(m, key, now).Hit? ==> r.0 == Some(ProbeStep(m, key, now).value)
    ensures ProbeStep(m, key, now).Miss? ==> r.0 == stored
    ensures r.0.Some? ==> key in r.1.entries && r.1.entries[key].value == r.0.value
    ensures ProbeStep(m, key, now).Miss? && stored.Some? ==> r.1.entries[key] == Entry(stored.value, now + defaultTtl)
  {
    match ProbeStep(m, key, now)
    case Hit(v, m') => (Some(v), m')
    case Miss(m') =>
      if stored.Some? then
        (stored, PutStep(m', capacity, key, Entry(stored.value, now + EffectiveTtl(0, defaultTtl))))
      else (None, m')
  }

  /** evict() keeps the invariant and, on a non-empty list, frees exactly one slot. */
  lemma EvictStepKeepsInStep<K(!new), V>(m: Memory<K, V>)
    requires InStep(m)
    ensures InStep(EvictStep(m))
    ensures m.order != [] ==> |EvictStep(m).entries| == |m.entries| - 1
    ensures m.order == [] ==> EvictStep(m) == m
  {
    if m.order != [] {
      var n := |m.order|;
      var last := m.order[n - 1];
      var r := EvictStep(m);
      assert last !in r.order by {
        forall j | 0 <= j < n - 1 ensures r.order[j] != last {
          assert r.order[j] == m.order[j];
        }
      }
      forall k ensures k in r.entries <==> k in r.order {
        if k in m.order && k != last {
          var j :| 0 <= j < n && m.order[j] == k;
          assert j < n - 1 && r.order[j] == k;
        }
        assert m.order == r.order + [last];
      }
    }
  }

  /** The tail is the least recently used key: a key at the front survives an eviction of a longer list. */
  lemma TouchedKeySurvivesEviction<K(!new), V>(m: Memory<K, V>)
    requires InStep(m) && |m.order| >= 2
    ensures m.order[0] in EvictStep(m).entries
  {
    assert m.order[0] != m.order[|m.order| - 1];
  }

  /** Putting a key that is not yet listed in front of a duplicate-free list keeps it duplicate-free. */
  lemma PrependKeepsDistinct<K>(key: K, s: seq<K>)
    requires NoDuplicates(s) && key !in s
    ensures NoDuplicates([key] + s)
  {
    var out := [key] + s;
    forall i, j | 0 <= i < j < |out| ensures out[i] != out[j] {
      assert out[j] == s[j - 1];
      if i > 0 { assert out[i] == s[i - 1]; }
    }
  }

  /** Move-to-front on a listed key keeps the list duplicate-free and its members unchanged. */
  lemma MoveToFrontKeepsInStep<K(!new), V>(entries: map<K, Entry<V>>, order: seq<K>, key: K)
    requires InStep(Memory(entries, order)) && key in entries
    ensures InStep(Memory(entries, [key] + RemoveFirst(order, key)))
  {
    RemoveFirstKeepsDistinct(order, key);
    PrependKeepsDistinct(key, RemoveFirst(order, key));
  }

  /** On a full cache whose list and map agree, the list is not empty, so evict() frees a slot. */
  lemma FullCacheHasTail<K(!new), V>(m: Memory<K, V>, capacity: nat)
    requires InStep(m) && |m.entries| >= capacity && |m.entries| > 0
    ensures m.order != []
  {
    var k0 :| k0 in m.entries;
    assert k0 in m.order;
  }

  /** put keeps the list and the map in step, and keeps the size bound. */
  lemma PutKeepsValid<K(!new), V>(m: Memory<K, V>, capacity: nat, key: K, e: Entry<V>)
    requires InStep(m)
    ensures InStep(PutStep(m, capacity, key, e))
    ensures |m.entries| <= Bound(capacity) ==> |PutStep(m, capacity, key, e).entries| <= Bound(capacity)
  {
    if key in m.entries {
      PresentPutKeepsInStep(m, capacity, key, e);
    } else {
      NewPutKeepsValid(m, capacity, key, e);
    }
  }

  /** put on a listed key: the entry is replaced and the key moved to the front. */
  lemma PresentPutKeepsInStep<K(!new), V>(m: Memory<K, V>, capacity: nat, key: K, e: Entry<V>)
    requires InStep(m) && key in m.entries
    ensures InStep(PutStep(m, capacity, key, e))
    ensures |PutStep(m, capacity, key, e).entries| == |m.entries|
  {
    MoveToFrontKeepsInStep(m.entries, m.order, key);
    assert m.entries[key := e].Keys == m.entries.Keys;
    assert InStep(Memory(m.entries[key := e], [key] + RemoveFirst(m.order, key)));
  }

  /** put of a new key: evict when full, then insert at the front. */
  lemma NewPutKeepsValid<K(!new), V>(m: Memory<K, V>, capacity: nat, key: K, e: Entry<V>)
    requires InStep(m) && key !in m.entries
    ensures InStep(PutStep(m, capacity, key, e))
    ensures |m.entries| <= Bound(capacity) ==> |PutStep(m, capacity, key, e).entries| <= Bound(capacity)
  {
    var m' := if |m.entries| >= capacity then EvictStep(m) else m;
    EvictStepKeepsInStep(m);
    if |m.entries| >= capacity && |m.entries| > 0 {
      FullCacheHasTail(m, capacity);
    }
    InsertFrontKeepsInStep(m', key, e);
    assert PutStep(m, capacity, key, e) == Memory(m'.entries[key := e], [key] + m'.order);
  }

  /** Inserting a key absent from the map at the list front keeps the invariant and adds one entry. */
  lemma InsertFrontKeepsInStep<K(!new), V>(m: Memory<K, V>, key: K, e: Entry<V>)
    requires InStep(m) && key !in m.entries
    ensures InStep(Memory(m.entries[key := e], [key] + m.order))
    ensures |m.entries[key := e]| == |m.entries| + 1
  {
    assert key !in m.order;
    PrependKeepsDistinct(key, m.order);
  }

  /** put on a present key replaces its entry, moves it to the front and evicts nothing. */
  lemma PutOnPresentKey<K(!new), V>(m: Memory<K, V>, capacity: nat, key: K, e: Entry<V>)
    requires key in m.entries && key in m.order
    ensures PutStep(m, capacity, key, e).entries.Keys == m.entries.Keys
    ensures |PutStep(m, capacity, key, e).entries| == |m.entries|
    ensures PutStep(m, capacity, key, e).entries[key] == e
    ensures forall k :: k in m.entries && k != key ==> PutStep(m, capacity, key, e).entries[k] == m.entries[k]
    ensures PutStep(m, capacity, key, e).order[0] == key
    ensures |PutStep(m, capacity, key, e).order| == |m.order|
  {
    assert m.entries[key := e].Keys == m.entries.Keys;
    assert multiset(m.order)[key] > 0;
  }

  /** put of a new key on a full cache evicts exactly the list's tail, and nothing else. */
  lemma PutEvictsTail<K(!new), V>(m: Memory<K, V>, capacity: nat, key: K, e: Entry<V>)
    requires InStep(m) && key !in m.entries && |m.entries| >= capacity && m.order != []
    ensures m.order[|m.order| - 1] !in PutStep(m, capacity, key, e).entries
    ensures forall k :: k in m.entries && k != m.order[|m.order| - 1] ==>
              k in PutStep(m, capacity, key, e).entries && PutStep(m, capacity, key, e).entries[k] == m.entries[k]
    ensures PutStep(m, capacity, key, e).entries[key] == e
    ensures PutStep(m, capacity, key, e).order == [key] + m.order[..|m.order| - 1]
  {
  }

  /** A hit moves the key to the front, keeps the invariant and leaves the map as it was. */
  lemma HitKeepsInStep<K(!new), V>(m: Memory<K, V>, key: K, now: int)
    requires ProbeStep(m, key, now).Hit?
    ensures key in m.entries && now <= m.entries[key].expiry
    ensures ProbeStep(m, key, now).value == m.entries[key].value
    ensures ProbeStep(m, key, now).after.entries == m.entries
    ensures ProbeStep(m, key, now).after.order[0] == key
    ensures InStep(m) ==> InStep(ProbeStep(m, key, now).after)
  {
    if InStep(m) {
      MoveToFrontKeepsInStep(m.entries, m.order, key);
    }
  }

  /** The expired branch erases the key from the map but leaves it in the list: the invariant breaks. */
  lemma ExpiredProbeBreaksInStep<K(!new), V>(m: Memory<K, V>, key: K, now: int)
    requires InStep(m) && key in m.entries && m.entries[key].expiry < now
    ensures ProbeStep(m, key, now).Miss?
    ensures key in ProbeStep(m, key, now).after.order
    ensures key !in ProbeStep(m, key, now).after.entries
    ensures !InStep(ProbeStep(m, key, now).after)
  {
  }

  /** A read-through after the expired branch puts the key into the list a second time. */
  lemma ExpiredRefillDuplicatesKey<K(!new), V>(m: Memory<K, V>, capacity: nat, defaultTtl: int, key: K, now: int, v: V)
    requires InStep(m) && key in m.entries && m.entries[key].expiry < now
    requires |m.entries| <= capacity
    ensures !NoDuplicates(GetStep(m, capacity, defaultTtl, key, now, Some(v)).1.order)
  {
    var after := ProbeStep(m, key, now).after;
    assert |after.entries| < |m.entries|;
    var o := GetStep(m, capacity, defaultTtl, key, now, Some(v)).1.order;
    assert o == [key] + m.order;
    var j :| 0 <= j < |m.order| && m.order[j] == key;
    assert o[0] == o[j + 1];
  }

  /** A get that does not meet an expired entry keeps the invariant and the size bound, read-through included. */
  lemma GetKeepsValidUnlessExpired<K(!new), V>(m: Memory<K, V>, capacity: nat, defaultTtl: int, key: K, now: int,
                                               stored: Option<V>)
    requires Valid(m, capacity)
    requires key in m.entries ==> now <= m.entries[key].expiry
    ensures Valid(GetStep(m, capacity, defaultTtl, key, now, stored).1, capacity)
  {
    if key in m.entries {
      HitKeepsInStep(m, key, now);
    } else if stored.Some? {
      PutKeepsValid(m, capacity, key, Entry(stored.value, now + EffectiveTtl(0, defaultTtl)));
    }
  }

  /** put of a new key below capacity: prepend it and evict nothing. */
  lemma PutBelowCapacity<K(!new), V>(m: Memory<K, V>, capacity: nat, key: K, e: Entry<V>)
    requires key !in m.entries && |m.entries| < capacity
    ensures PutStep(m, capacity, key, e) == Memory(m.entries[key := e], [key] + m.order)
  {
  }

  /** Three puts of distinct keys into an empty cache of capacity 3 evict nothing. */
  lemma FillThree<K(!new), V>(a: K, b: K, c: K, ea: Entry<V>, eb: Entry<V>, ec: Entry<V>)
    requires a != b && a != c && b != c
    ensures PutStep(PutStep(PutStep(Empty(), 3, a, ea), 3, b, eb), 3, c, ec)
            == Memory(map[a := ea, b := eb, c := ec], [c, b, a])
  {
    PutBelowCapacity(Empty(), 3, a, ea);
    var m1 := Memory(map[a := ea], [a]);
    PutBelowCapacity(m1, 3, b, eb);
    var m2 := Memory(map[a := ea, b := eb], [b, a]);
    assert |m2.entries| == 2;
    PutBelowCapacity(m2, 3, c, ec);
  }

  /** Last part of the counterexample: put d fits, put e evicts the stale list tail a. */
  lemma AddTwoAfterExpiry<K(!new), V>(a: K, b: K, c: K, d: K, e: K, v: V)
    requires a != b && a != c && a != d && a != e && b != c && b != d && b != e && c != d && c != e && d != e
    ensures PutStep(PutStep(Memory(map[b := Entry(v, 300), c := Entry(v, 300)], [c, b, a]),
              3, d, Entry(v, 5 + EffectiveTtl(0, 300))),
              3, e, Entry(v, 5 + EffectiveTtl(0, 300)))
            == Memory(map[b := Entry(v, 300), c := Entry(v, 300), d := Entry(v, 305), e := Entry(v, 305)], [e, d, c, b])
  {
    var late := Entry(v, 5 + EffectiveTtl(0, 300));
    assert late == Entry(v, 305);
    var m4 := Memory(map[b := Entry(v, 300), c := Entry(v, 300)], [c, b, a]);
    assert |m4.entries| == 2;
    PutBelowCapacity(m4, 3, d, late);
    var m5 := Memory(map[b := Entry(v, 300), c := Entry(v, 300), d := late], [d, c, b, a]);
    assert PutStep(m4, 3, d, late) == m5;
    assert |m5.entries| == 3 && e !in m5.entries;
    assert EvictStep(m5) == Memory(m5.entries, [d, c, b]);
    assert PutStep(m5, 3, e, late) == Memory(m5.entries[e := late], [e, d, c, b]);
  }

  /**
   * The counterexample: capacity 3, default TTL 300, monotonic time in
   * seconds, five distinct keys. put a with ttl 1, then b and c with the
   * default; at time 5 `get a` finds a expired and the store misses; then
   * put d and put e. The last put evicts the stale `a` from the list, which
   * erases nothing from the map, and the map ends with four entries.
   */
  lemma ExpiredGetOverflowsCapacity<K(!new), V>(a: K, b: K, c: K, d: K, e: K, v: V,
      m1: Memory<K, V>, m2: Memory<K, V>, m3: Memory<K, V>, r: Option<V>,
      m4: Memory<K, V>, m5: Memory<K, V>, m6: Memory<K, V>)
    requires a != b && a != c && a != d && a != e && b != c && b != d && b != e && c != d && c != e && d != e
    requires m1 == PutStep(Empty(), 3, a, Entry(v, 0 + EffectiveTtl(1, 300)))
    requires m2 == PutStep(m1, 3, b, Entry(v, 0 + EffectiveTtl(0, 300)))
    requires m3 == PutStep(m2, 3, c, Entry(v, 0 + EffectiveTtl(0, 300)))
    requires (r, m4) == GetStep(m3, 3, 300, a, 5, None)
    requires m5 == PutStep(m4, 3, d, Entry(v, 5 + EffectiveTtl(0, 300)))
    requires m6 == PutStep(m5, 3, e, Entry(v, 5 + EffectiveTtl(0, 300)))
    ensures r == None
    ensures m6.entries.Keys == {b, c, d, e}
    ensures |m6.entries| == 4 > 3
  {
    FillThree(a, b, c, Entry(v, 1), Entry(v, 300), Entry(v, 300));
    assert m4 == Memory(m3.entries - {a}, [c, b, a]);
    assert m3.entries - {a} == map[b := Entry(v, 300), c := Entry(v, 300)];
    AddTwoAfterExpiry(a, b, c, d, e, v);
  }

  /** The corrected expired branch: erase the key from the list as well as from the map. */
  function ProbeStepFixed<K(==,!new), V>(m: Memory<K, V>, key: K, now: int): Probe<K, V>
  {
    if key !in m.entries then Miss(m)
    else if now <= m.entries[key].expiry then
      Hit(m.entries[key].value, Memory(m.entries, [key] + RemoveFirst(m.order, key)))
    else Miss(Memory(m.entries - {key}, RemoveFirst(m.order, key)))
  }

  /** get with the corrected expired branch. */
  function GetStepFixed<K(==,!new), V>(m: Memory<K, V>, capacity: nat, defaultTtl: int, key: K, now: int, stored: Option<V>)
    : (Option<V>, Memory<K, V>)
  {
    match ProbeStepFixed(m, key, now)
    case Hit(v, m') => (Some(v), m')
    case Miss(m') =>
      if stored.Some? then
        (stored, PutStep(m', capacity, key, Entry(stored.value, now + EffectiveTtl(0, defaultTtl))))
      else (None, m')
  }

  /** With the corrected expired branch, every get keeps the invariant and the size bound. */
  lemma FixedGetKeepsValid<K(!new), V>(m: Memory<K, V>, capacity: nat, defaultTtl: int, key: K, now: int, stored: Option<V>)
    requires Valid(m, capacity)
    ensures Valid(GetStepFixed(m, capacity, defaultTtl, key, now, stored).1, capacity)
  {
    match ProbeStepFixed(m, key, now)
    case Hit(v, m') =>
      HitKeepsInStep(m, key, now);
    case Miss(m') =>
      if key in m.entries {
        RemoveFirstKeepsDistinct(m.order, key);
        assert InStep(m');
        assert |m'.entries| <= |m.entries|;
      }
      if stored.Some? {
        PutKeepsValid(m', capacity, key, Entry(stored.value, now + EffectiveTtl(0, defaultTtl)));
      }
  }

  /**
   * The expired branch also breaks the recency order. Capacity 2: put a
   * (ttl 1) and b at time 0; at time 5 get a, expired in memory but still
   * answered by the store, which re-inserts it in front of its stale copy.
   * The next new key evicts the stale tail `a`, which erases the key just
   * read through, while b, the least recently used, survives.
   */
  lemma ExpiredRefillEvictsFreshKey<K(!new), V>(a: K, b: K, c: K, v: V, w: V,
      m1: Memory<K, V>, m2: Memory<K, V>, r: Option<V>, m3: Memory<K, V>, m4: Memory<K, V>)
    requires a != b && a != c && b != c
    requires m1 == PutStep(Empty(), 2, a, Entry(v, 0 + EffectiveTtl(1, 300)))
    requires m2 == PutStep(m1, 2, b, Entry(v, 0 + EffectiveTtl(0, 300)))
    requires (r, m3) == GetStep(m2, 2, 300, a, 5, Some(w))
    requires m4 == PutStep(m3, 2, c, Entry(v, 5 + EffectiveTtl(0, 300)))
    ensures r == Some(w)
    ensures m3.order == [a, b, a]
    ensures a !in m4.entries && b in m4.entries
  {
    assert m1 == Memory(map[a := Entry(v, 1)], [a]);
    assert m2 == Memory(map[a := Entry(v, 1), b := Entry(v, 300)], [b, a]);
    var after := Memory(map[b := Entry(v, 300)], [b, a]);
    assert m2.entries - {a} == after.entries;
    assert ProbeStep(m2, a, 5) == Miss(after);
    assert m3 == Memory(map[b := Entry(v, 300), a := Entry(w, 305)], [a, b, a]);
    assert |m3.entries| == 2;
    assert EvictStep(m3) == Memory(map[b := Entry(v, 300)], [a, b]);
  }

  /** With the corrected expired branch, the same run evicts b and keeps the key just read through. */
  lemma FixedRefillKeepsFreshKey<K(!new), V>(a: K, b: K, c: K, v: V, w: V,
      m1: Memory<K, V>, m2: Memory<K, V>, r: Option<V>, m3: Memory<K, V>, m4: Memory<K, V>)
    requires a != b && a != c && b != c
    requires m1 == PutStep(Empty(), 2, a, Entry(v, 0 + EffectiveTtl(1, 300)))
    requires m2 == PutStep(m1, 2, b, Entry(v, 0 + EffectiveTtl(0, 300)))
    requires (r, m3) == GetStepFixed(m2, 2, 300, a, 5, Some(w))
    requires m4 == PutStep(m3, 2, c, Entry(v, 5 + EffectiveTtl(0, 300)))
    ensures r == Some(w)
    ensures m3.order == [a, b]
    ensures a in m4.entries && b !in m4.entries
  {
    assert m1 == Memory(map[a := Entry(v, 1)], [a]);
    assert m2 == Memory(map[a := Entry(v, 1), b := Entry(v, 300)], [b, a]);
    assert RemoveFirst([b, a], a) == [b];
    var after := Memory(map[b := Entry(v, 300)], [b]);
    assert m2.entries - {a} == after.entries;
    assert ProbeStepFixed(m2, a, 5) == Miss(after);
    assert m3 == Memory(map[b := Entry(v, 300), a := Entry(w, 305)], [a, b]);
    assert |m3.entries| == 2;
    assert EvictStep(m3) == Memory(map[a := Entry(w, 305)], [a]);
  }

  /** Read-through repair: after a miss answered by the store, the same key is a hit from memory. */
  lemma ReadThroughThenHit<K(!new), V>(m: Memory<K, V>, capacity: nat, defaultTtl: int, key: K, now: int, v: V)
    requires ProbeStep(m, key, now).Miss? && defaultTtl >= 0
    ensures GetStep(m, capacity, defaultTtl, key, now, Some(v)).0 == Some(v)
    ensures ProbeStep(GetStep(m, capacity, defaultTtl, key, now, Some(v)).1, key, now).Hit?
    ensures ProbeStep(GetStep(m, capacity, defaultTtl, key, now, Some(v)).1, key, now).value == v
  {
  }

  /**
   * The recency scenario: capacity 3, put a, b, c, then a hit on a, then put
   * d evicts b (the least recently used), and keeps a, c and d.
   */
  lemma RecencyScenario<K(!new), V>(a: K, b: K, c: K, d: K, v: V, now: int)
    requires a != b && a != c && a != d && b != c && b != d && c != d
    ensures var m3 := PutStep(PutStep(PutStep(Empty(), 3, a, Entry(v, now + 300)),
                        3, b, Entry(v, now + 300)), 3, c, Entry(v, now + 300));
            var (r, m4) := GetStep(m3, 3, 300, a, now, None);
            var m5 := PutStep(m4, 3, d, Entry(v, now + 300));
            && r == Some(v)
            && m5.order == [d, a, c]
            && m5.entries.Keys == {a, c, d}
  {
    var e := Entry(v, now + 300);
    FillThree(a, b, c, e, e, e);
    HitOnOldest(a, b, c, e, now);
    PutAfterHit(a, b, c, d, e);
  }

  /** With c, b, a listed and a fresh, a hit on a moves it to the front. */
  lemma HitOnOldest<K(!new), V>(a: K, b: K, c: K, e: Entry<V>, now: int)
    requires a != b && a != c && b != c && now <= e.expiry
    ensures GetStep(Memory(map[a := e, b := e, c := e], [c, b, a]), 3, 300, a, now, None)
            == (Some(e.value), Memory(map[a := e, b := e, c := e], [a, c, b]))
  {
    var m := Memory(map[a := e, b := e, c := e], [c, b, a]);
    assert RemoveFirst([c, b, a], a) == [c, b] by {
      assert [c, b, a][1..] == [b, a] && [b, a][1..] == [a];
    }
    assert m.entries[a] == e;
    assert ProbeStep(m, a, now) == Hit(e.value, Memory(m.entries, [a] + [c, b]));
    assert [a] + [c, b] == [a, c, b];
  }

  /** With a, c, b listed in a full cache of capacity 3, putting d evicts b. */
  lemma PutAfterHit<K(!new), V>(a: K, b: K, c: K, d: K, e: Entry<V>)
    requires a != b && a != c && a != d && b != c && b != d && c != d
    ensures PutStep(Memory(map[a := e, b := e, c := e], [a, c, b]), 3, d, e)
            == Memory(map[a := e, c := e, d := e], [d, a, c])
    ensures map[a := e, c := e, d := e].Keys == {a, c, d}
  {
    var m4 := Memory(map[a := e, b := e, c := e], [a, c, b]);
    assert |m4.entries| == 3;
    assert EvictStep(m4) == Memory(map[a := e, c := e], [a, c]);
  }

  /** A fourth distinct key put into a full cache of capacity 3 evicts the first one put, and only it. */
  lemma FourthPutEvictsFirst<K(!new), V>(a: K, b: K, c: K, d: K, e: Entry<V>)
    requires a != b && a != c && a != d && b != c && b != d && c != d
    ensures var m := PutStep(PutStep(PutStep(PutStep(Empty(), 3, a, e), 3, b, e), 3, c, e), 3, d, e);
            m.entries.Keys == {b, c, d} && m.order == [d, c, b]
  {
    FillThree(a, b, c, e, e, e);
    var m3 := Memory(map[a := e, b := e, c := e], [c, b, a]);
    assert |m3.entries| == 3;
    assert EvictStep(m3) == Memory(map[b := e, c := e], [c, b]);
  }

  /** A miss the store cannot answer returns nothing and leaves memory as the in-memory phase left it. */
  lemma StoreMissKeepsProbe<K(!new), V>(m: Memory<K, V>, capacity: nat, defaultTtl: int, key: K, now: int)
    requires ProbeStep(m, key, now).Miss?
    ensures GetStep(m, capacity, defaultTtl, key, now, None) == (None, ProbeStep(m, key, now).after)
    ensures key !in GetStep(m, capacity, defaultTtl, key, now, None).1.entries
  {
  }

  /**
   * One put of a new key moves every listed key but the tail one place back
   * and keeps it: an eviction takes the tail only.
   */
  lemma NewKeyPutShifts<K(!new), V>(m: Memory<K, V>, capacity: nat, key: K, e: Entry<V>, i: nat)
    requires InStep(m) && key !in m.entries && i + 1 < |m.order|
    ensures PutStep(m, capacity, key, e).order[i + 1] == m.order[i]
    ensures m.order[i] in PutStep(m, capacity, key, e).entries
    ensures |PutStep(m, capacity, key, e).order| >= |m.order|
  {
    var n := |m.order|;
    assert m.order[i] != m.order[n - 1];
    assert m.order[i] in m.entries;
  }

  /** A run of puts, in order. */
  function PutAll<K(==,!new), V>(m: Memory<K, V>, capacity: nat, puts: seq<(K, Entry<V>)>): Memory<K, V>
    decreases |puts|
  {
    if puts == [] then m
    else PutAll(PutStep(m, capacity, puts[0].0, puts[0].1), capacity, puts[1..])
  }

  /** The keys a put may leave in the map: the old ones and the key put. */
  lemma PutKeys<K(!new), V>(m: Memory<K, V>, capacity: nat, key: K, e: Entry<V>)
    ensures forall k :: k in PutStep(m, capacity, key, e).entries ==> k in m.entries || k == key
  {
  }

  /** Each put of the run is of a key not yet in the map, and no key is put twice. */
  ghost predicate NewKeys<K(!new), V>(m: Memory<K, V>, puts: seq<(K, Entry<V>)>)
  {
    && (forall j :: 0 <= j < |puts| ==> puts[j].0 !in m.entries)
    && (forall j, l :: 0 <= j < l < |puts| ==> puts[j].0 != puts[l].0)
  }

  /** After the first put of such a run, the rest of the run still puts new keys. */
  lemma NewKeysAfterFirst<K(!new), V>(m: Memory<K, V>, capacity: nat, puts: seq<(K, Entry<V>)>)
    requires puts != [] && NewKeys(m, puts)
    ensures NewKeys(PutStep(m, capacity, puts[0].0, puts[0].1), puts[1..])
  {
    var m' := PutStep(m, capacity, puts[0].0, puts[0].1);
    var rest := puts[1..];
    PutKeys(m, capacity, puts[0].0, puts[0].1);
    forall j | 0 <= j < |rest| ensures rest[j].0 !in m'.entries {
      assert rest[j] == puts[j + 1];
    }
    forall j, l | 0 <= j < l < |rest| ensures rest[j].0 != rest[l].0 {
      assert rest[j] == puts[j + 1] && rest[l] == puts[l + 1];
    }
  }

  /** Every run of puts keeps the list and the map in step, and keeps the size bound. */
  lemma {:induction false} RunKeepsValid<K(!new), V>(m: Memory<K, V>, capacity: nat, puts: seq<(K, Entry<V>)>)
    requires InStep(m)
    decreases |puts|
    ensures InStep(PutAll(m, capacity, puts))
    ensures |m.entries| <= Bound(capacity) ==> |PutAll(m, capacity, puts).entries| <= Bound(capacity)
  {
    if puts != [] {
      PutKeepsValid(m, capacity, puts[0].0, puts[0].1);
      RunKeepsValid(PutStep(m, capacity, puts[0].0, puts[0].1), capacity, puts[1..]);
    }
  }

  /** The first put of a run of new keys, as SurvivesNewPuts uses it. */
  lemma FirstPutOfRun<K(!new), V>(m: Memory<K, V>, capacity: nat, puts: seq<(K, Entry<V>)>, i: nat)
    requires InStep(m) && puts != [] && i + |puts| < |m.order| && NewKeys(m, puts)
    ensures var m' := PutStep(m, capacity, puts[0].0, puts[0].1);
            && InStep(m') && NewKeys(m', puts[1..])
            && i + 1 + |puts[1..]| < |m'.order| && m'.order[i + 1] == m.order[i]
            && PutAll(m, capacity, puts) == PutAll(m', capacity, puts[1..])
  {
    assert puts[0].0 !in m.entries;
    PutKeepsValid(m, capacity, puts[0].0, puts[0].1);
    NewKeyPutShifts(m, capacity, puts[0].0, puts[0].1, i);
    NewKeysAfterFirst(m, capacity, puts);
  }

  /**
   * The recency invariant over a run: on in-step memory, a key at index i
   * of the list outlives |order| - 1 - i puts of distinct new keys and ends
   * the run |puts| places further back.
   */
  lemma {:induction false} SurvivesNewPuts<K(!new), V>(m: Memory<K, V>, capacity: nat, puts: seq<(K, Entry<V>)>, i: nat)
    requires InStep(m) && i + |puts| < |m.order|
    requires NewKeys(m, puts)
    decreases |puts|
    ensures i + |puts| < |PutAll(m, capacity, puts).order|
    ensures PutAll(m, capacity, puts).order[i + |puts|] == m.order[i]
    ensures m.order[i] in PutAll(m, capacity, puts).entries
  {
    if puts != [] {
      var m' := PutStep(m, capacity, puts[0].0, puts[0].1);
      FirstPutOfRun(m, capacity, puts, i);
      SurvivesNewPuts(m', capacity, puts[1..], i + 1);
    }
  }


  /**
   * After a hit on key, it outlives every other listed key: |order| - 1 puts
   * of distinct new keys leave it in the map.
   */
  lemma HitKeyOutlivesOthers<K(!new), V>(m: Memory<K, V>, capacity: nat, key: K, now: int, puts: seq<(K, Entry<V>)>)
    requires InStep(m) && ProbeStep(m, key, now).Hit?
    requires |puts| < |m.order| && NewKeys(m, puts)
    ensures key in PutAll(ProbeStep(m, key, now).after, capacity, puts).entries
  {
    HitKeepsInStep(m, key, now);
    var after := ProbeStep(m, key, now).after;
    assert |after.order| == |m.order|;
    SurvivesNewPuts(after, capacity, puts, 0);
  }
}
