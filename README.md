# A verified model of CPPServer's cache core

CPPServer is a small HTTP server written in C++. It keeps string key/value
pairs in an in-memory LRU cache with per-entry time-to-live and writes every
entry through to a PostgreSQL table. This project models three parts of it
in Dafny and proves properties of them:

- **`LRUCache`** (`src/cache.hpp`). It is modelled as the class
  `Cache.LRUCache`, with the fields `cacheMap` (the `unordered_map`) and
  `lruList` (the `std::list`, most recently used first).
  - `evict`, `put`, `get` and `clear` are methods that update those fields in
    place.
  - Each method is proved to have exactly the effect that the matching step
    function of module `CacheState` gives it (`EvictStep`, `PutStep`,
    `GetStep`).
  - The lemmas of `CacheState` say which operations keep the map and the list
    in step and within the size bound, and which operation breaks that.
  - The size bound is `CacheState.Bound(capacity)`: `capacity` entries, or
    one entry when `capacity` is 0. With capacity 0, `put` evicts from an
    empty list, which removes nothing, and then inserts, so the map holds
    one entry.
  - The model keeps the source's behaviour in the expired branch of `get`,
    which erases the key from the map only. The resulting overflow past
    `capacity` is proved; see "## Findings".
- **`DatabaseConnection`** (`src/database.hpp`).
  - Module `Database` models the table `cache_entries` as a map from key to
    row `(value, expiry, createdAt)`.
  - The three SQL statements are the functions `Upserted`, `Lookup` and
    `Swept`.
  - The class `Database.DatabaseConnection` holds the table as a field. Its
    `Put`, `Get` and `CleanupExpired` take a `fault` input that stands for
    a statement that throws. In that case the table is left unchanged.
  - Module `DatabaseConfig` models the constructor's parameter resolution
    (argument, else environment variable, else default) and the connection
    string.
  - It also models the retry loop: at most 5 attempts, waiting 1, 2, 4 and
    8 seconds between them. This is a method with a loop.
- **`HttpServer::handle_request`** (`src/server.cpp`), in module `Server`.
  - `std::string::find` is `Find`. `size_t` positions wrap modulo 2^64, with
    `npos` = 2^64 - 1.
  - Routes are picked by substring search in the source's order (`RouteOf`).
  - The GET key is cut out between the first `/api/cached/` and the first
    ` HTTP/` (`GetKey`).
  - A POST body is parsed by an oracle `parse`, which stands in for
    `nlohmann::json::parse`. The reply to each request is an HTTP status
    plus the JSON object the source builds.
  - `Plan` is the pure part of request handling.
    `HttpServer.HandleRequest` then calls into the `LRUCache` class.
    `Outcome` states the reply, cache memory and store table that result.
  - `handle_request` catches only `json::parse_error`. A cache POST whose
    document parses but lacks a string `key` or `value`, or has a `ttl`
    that is neither a number nor a boolean, raises `json::type_error`.
    That exception leaves `handle_request` and `start()`, so the server
    stops; the model's reply is then `Escaped`.

Clocks are integer parameters in whole seconds. `monoNow` stands for
`steady_clock`, which decides cache expiry. `wallNow` stands for
`system_clock` and the database's `CURRENT_TIMESTAMP`, which decide store
expiry.

`getenv`, `getpwuid` and the outcome of each connection attempt are inputs.
So is the JSON parser.

The tests CacheEviction and CacheClear in tests/cache_tests.cpp, and
TestCacheClear in tests/server_tests.cpp, expect a miss for a key that was
evicted or cleared. The code does not do that while the store is reachable:
`get` reads through to the store, which still holds the unexpired row, and
answers the value. `Cache.ClearedKeyReadsThrough` proves this for a clear.

## Model

| member | source | states |
|---|---|---|
| Database.Upserted | src/database.hpp:134-139 | after the upsert the row has the new value and expiry; an existing created_at is kept, a new row gets now; the key set grows by the key; every other row is unchanged |
| Database.Lookup | src/database.hpp:154-165 | a value is returned iff the row exists and its expiry is strictly after now, and it is the row's value |
| Database.Swept | src/database.hpp:176-177 | exactly the rows with expiry after now remain, each unchanged |
| Database.SweepKeepsLookups | src/database.hpp:154-177 | at a fixed instant, cleanup never changes what get answers for any key |
| Database.SweepIdempotent | src/database.hpp:176-177 | running cleanup twice at one instant equals running it once |
| Database.SweepsCompose | src/cache.hpp:62-70 | a later periodic cleanup subsumes an earlier one |
| Database.PutThenLookup | src/database.hpp:134-157 | after a put, get answers the new value exactly while the new expiry lies ahead |
| Database.PutLeavesOtherKeys | src/database.hpp:134-139 | a put on one key leaves get of every other key unchanged |
| Database.DatabaseConnection.Put | src/database.hpp:123-147 | returns true and upserts, or on a failed statement returns false and leaves the table unchanged |
| Database.DatabaseConnection.Get | src/database.hpp:149-170 | the unexpired value iff present, absent on failure |
| Database.DatabaseConnection.CleanupExpired | src/database.hpp:172-182 | the table becomes the swept table, or stays unchanged when the statement fails; nothing propagates |
| DatabaseConfig.EnvOrDefault | src/database.hpp:35-39 | no contract of its own: the variable's value when it is set, even to "", else the default; the precedence it takes part in is the contract of DatabaseConfig.Resolve |
| DatabaseConfig.SystemUsername | src/database.hpp:21-33 | USER if set, else the passwd name, else "postgres" |
| DatabaseConfig.Resolve | src/database.hpp:48-62 | each parameter is the non-empty argument, else the set environment variable, else its default (localhost, 5432, cache_db, system user, empty password) |
| DatabaseConfig.DefaultsApply | src/database.hpp:48-62 | with no arguments and none of the five POSTGRES_* variables set (any other variable may be set) the defaults are chosen, the user being the system user |
| DatabaseConfig.ConnectionString | src/database.hpp:65-72 | the connection string starts with host=; its fields are the contract of DatabaseConfig.ConnectionStringFields |
| DatabaseConfig.ConnectionStringFields | src/database.hpp:65-72 | for settings without spaces, splitting the string at its spaces gives host=…, port=…, dbname=…, user=… in that order, then password=… exactly when the password is non-empty |
| DatabaseConfig.PasswordClause | src/database.hpp:69-72 | " password=…" is appended exactly when the password is non-empty, and nothing else changes |
| DatabaseConfig.BackoffWaits | src/database.hpp:82-97 | after n failures the waits are 2^0 … 2^(n-1) seconds |
| DatabaseConfig.Connect | src/database.hpp:79-116 | five failures throw the fifth error with the "Database connection failed: " prefix after waiting 1, 2, 4, 8; fewer failures connect on attempt failures+1 after the matching waits, unless table creation throws |
| DatabaseConfig.WaitsBeforeGivingUp | src/database.hpp:80-97 | the waits before giving up are exactly 1, 2, 4 and 8 seconds |
| DatabaseConfig.Open | src/database.hpp:42-117 | the constructor connects iff fewer than five attempts fail and initialisation succeeds, with the resolved connection string; every failure message carries the prefix |
| CacheState.RemoveFirst | src/cache.hpp:88-91 | erasing the std::find position shortens the list by one when the key is listed and changes nothing otherwise |
| CacheState.RemoveFirstAt | src/cache.hpp:88-91 | erasing at the index std::find reports is removing the first occurrence |
| CacheState.RemoveFirstKeepsDistinct | src/cache.hpp:113-116 | on a duplicate-free list the key disappears and every other key stays |
| CacheState.EvictStep | src/cache.hpp:32-40 | on an empty list nothing changes; otherwise the list loses its tail, that key leaves the map, and every other entry stays unchanged |
| CacheState.PutStep | src/cache.hpp:85-101 | after put the key holds the new entry and is at the front of the list |
| CacheState.ProbeStep | src/cache.hpp:106-123 | a hit iff the key is present and its expiry is not past; a hit returns the stored value, leaves the map unchanged and puts the key at the list front; a miss erases exactly that key from the map, keeps every other entry unchanged and leaves the list as it was |
| CacheState.GetStep | src/cache.hpp:104-134 | a hit answers the stored value, a miss answers what the store answered; a value answered is then in memory with that value; a read-through re-inserts it with the default TTL (put with ttl 0), expiring at now + defaultTtl |
| CacheState.EvictStepKeepsInStep | src/cache.hpp:32-40 | evict on an empty list changes nothing; otherwise it frees exactly one slot and keeps list and map in step |
| CacheState.TouchedKeySurvivesEviction | src/cache.hpp:32-40 | on in-step memory, the most recently used key is never the one evicted from a list of two or more |
| CacheState.NewKeyPutShifts | src/cache.hpp:96-101 | on in-step memory, a put of a new key moves every listed key but the tail one place back and keeps it in the map |
| CacheState.SurvivesNewPuts | src/cache.hpp:32-40 | on in-step memory, a key at list index i survives |order| - 1 - i puts of distinct new keys and ends that many places further back, still in the map |
| CacheState.HitKeyOutlivesOthers | src/cache.hpp:106-118 | on in-step memory, after a hit on a key, |order| - 1 puts of distinct new keys leave it in the map |
| CacheState.RunKeepsValid | src/cache.hpp:85-101 | any run of puts keeps list and map in step and within the size bound Bound(capacity) |
| CacheState.PutKeepsValid | src/cache.hpp:85-101 | put keeps the list equal to the map's keys without duplicates, and keeps the size within Bound(capacity): capacity, or 1 at capacity 0 |
| CacheState.PutOnPresentKey | src/cache.hpp:85-94 | on any memory whose map and list both hold the key (in step or not), put replaces its entry, moves it to the front, evicts nothing and leaves other entries and the size unchanged |
| CacheState.PutEvictsTail | src/cache.hpp:96-101 | on in-step memory, put of a new key on a full cache removes exactly lru_list.back() and inserts the key at the front |
| CacheState.PutBelowCapacity | src/cache.hpp:96-101 | put of a new key below capacity inserts it at the front and evicts nothing |
| CacheState.FourthPutEvictsFirst | tests/cache_tests.cpp:25-34 | at capacity 3 a fourth distinct key evicts the first one put |
| CacheState.HitKeepsInStep | src/cache.hpp:109-118 | on any memory, a hit returns the stored value, moves the key to the front and leaves the map unchanged; on in-step memory it also keeps list and map in step |
| CacheState.ExpiredProbeBreaksInStep | src/cache.hpp:120-123 | the expired branch erases the key from the map but not from the list, so the invariant breaks |
| CacheState.ExpiredRefillDuplicatesKey | src/cache.hpp:120-130 | a read-through after the expired branch puts the key into the list twice |
| CacheState.GetKeepsValidUnlessExpired | src/cache.hpp:104-134 | a get that does not meet an expired entry, a hit or a read-through of an absent key, keeps list and map in step and within Bound(capacity) |
| CacheState.ExpiredGetOverflowsCapacity | src/cache.hpp:104-134 | capacity 3: put a (ttl 1), b, c; get a after it expired, with a store miss; put d, e; the map then holds four entries |
| CacheState.FixedGetKeepsValid | src/cache.hpp:120-122 | with the list erase added to the expired branch, every get keeps list and map in step and within Bound(capacity) |
| CacheState.ExpiredRefillEvictsFreshKey | src/cache.hpp:120-130 | capacity 2: put a (ttl 1), put b; at time 5 get a, expired in memory but answered by the store; the list becomes a, b, a, and the next new key evicts a, the key just read through, while b survives |
| CacheState.FixedRefillKeepsFreshKey | src/cache.hpp:120-122 | with the list erase added to the expired branch, the same run lists a, b and the next new key evicts b and keeps a |
| CacheState.ReadThroughThenHit | src/cache.hpp:125-131 | a miss answered by the store returns the value and re-inserts it, so the next get at that instant is a hit |
| CacheState.StoreMissKeepsProbe | src/cache.hpp:125-133 | a miss the store cannot answer returns nothing and leaves memory as the in-memory phase left it |
| CacheState.RecencyScenario | src/cache.hpp:72-118 | after put a, b, c and a hit on a, put d evicts b, the least recently used, and the order is d, a, c |
| Cache.Find | src/cache.hpp:88-89 | the index of the first occurrence of the key, or the list length when it is absent |
| Cache.LRUCache.constructor | src/cache.hpp:43-51 | capacity and default TTL as given; map and list empty |
| Cache.LRUCache.Evict | src/cache.hpp:32-40 | the new state is EvictStep of the old, and the list/map invariant is kept |
| Cache.LRUCache.MoveToFront | src/cache.hpp:88-92 | the first occurrence of the key moves to the front and the map is untouched |
| Cache.LRUCache.Put | src/cache.hpp:72-102 | memory becomes PutStep with the effective TTL (ttl 0 selects the default); the store row is upserted unless the write fails, and has completed when put returns; the invariant and the size bound Bound(capacity) are kept |
| Cache.LRUCache.PutInMemory | src/cache.hpp:85-101 | the in-memory part of put: the new memory is PutStep of the old, and the invariant and size bound are kept |
| Cache.LRUCache.Get | src/cache.hpp:104-134 | result and memory are GetStep given the store's answer; the store is written only by the read-through re-insertion; a get that does not meet an expired entry keeps the invariant and the size bound Bound(capacity) |
| Cache.LRUCache.ProbeMemory | src/cache.hpp:106-123 | the in-memory phase of get: an answer iff ProbeStep hits, with its value, and the new memory is what ProbeStep leaves; unless it meets an expired entry it keeps the invariant and the size bound |
| Cache.LRUCache.Clear | src/cache.hpp:136-140 | map and list empty; the store is untouched |
| Cache.ClearedKeyReadsThrough | tests/cache_tests.cpp:63-72 | after clear, size is 0 but get of a key put earlier answers its value from the store |
| Cache.TtlExpiry | tests/cache_tests.cpp:36-43 | an entry with ttl 1 is a hit one second later and a miss two seconds later |
| Server.Find | src/server.cpp:56-57 | the first index where the pattern occurs, or none when it occurs nowhere |
| Server.Pos | src/server.cpp:56-57 | find's size_t result: npos exactly when the pattern does not occur |
| Server.SizeAdd | src/server.cpp:32 | size_t addition wraps modulo 2^64 |
| Server.RouteOf | src/server.cpp:31-112 | the route is the first of POST /api/cached, GET /api/cached/, POST /api/cache/clear, GET /api/hello, POST /api/echo whose text occurs; none when no pattern occurs |
| Server.GetKey | src/server.cpp:56-67 | the key runs from just after the first /api/cached/ to the first " HTTP/"; there is a key iff that span is non-empty; it never contains " HTTP/" |
| Server.KeyHoldsNoMarker | src/server.cpp:57-67 | a span ending at the first " HTTP/" contains none |
| Server.GetKeyRoundTrip | src/server.cpp:56-67 | for "GET /api/cached/" + k + " HTTP/…" where k does not contain " HTTP/", the key extracted is k, and none when k is empty |
| Server.KeyStartNeverNpos | src/server.cpp:56-60 | start_pos never equals npos |
| Server.BodyStart | src/server.cpp:32 | just past the first blank line when there is one; 3 when there is none |
| Server.BodyGuardNeverFails | src/server.cpp:32-33 | the guard body_start != npos always holds |
| Server.BodyText | src/server.cpp:35 | substr(body_start), or the out_of_range throw when past the end |
| Server.RoutedBodyExists | src/server.cpp:32-35 | on both POST routes substr never throws |
| Server.MissingHeaderEndParsesFromThree | src/server.cpp:96-99 | without a blank line the parser is handed the request from its fourth character |
| Server.BodyStartChecked | src/server.cpp:32-33 | the body start exists iff the request has a blank line, and then it is just past the first one |
| Server.CheckedAgreesWhenPresent | src/server.cpp:32-33 | where a blank line exists the checked start equals the source's |
| Server.ToInt32 | src/server.cpp:38 | get<int> of a JSON integer lies in int's range, is congruent modulo 2^32 and is exact when in range |
| Server.TtlField | src/server.cpp:38 | 300 when ttl is absent, the integer converted to int when present, and a type_error when it is neither number nor boolean |
| Server.EntryFields | src/server.cpp:36-38 | key, value and ttl are read iff the document is an object whose key and value are strings and whose ttl converts |
| Server.PostAction | src/server.cpp:32-53 | no contract of its own: parse the body from body_start, answer 400 on a parse error, echo or build the entry; its cases are the contracts of Server.Plan and Server.PostActionAnswers |
| Server.PostActionAnswers | src/server.cpp:96-110 | since the body guard always passes, a POST never gets the fall-through 404 |
| Server.Plan | src/server.cpp:30-115 | a store iff the cache POST parses with fields; a fetch iff the GET key exists; a clear iff the clear route; 400 "Invalid request" for a bad key, 400 "Invalid JSON" for a bad body, the hello reply, 404 "Not Found" when no route matches; every immediate reply is consistent |
| Server.HttpServer.constructor | src/server.cpp:118-121 | the cache has capacity 1024 and default TTL 300 and starts empty |
| Server.HttpServer.HandleRequest | src/server.cpp:30-115 | reply, cache memory and store table are Outcome of the planned action |
| Server.HttpServer.Perform | src/server.cpp:36-86 | the cache call of the action (put, get or clear) and the reply built from its answer |
| Server.RepliesAreConsistent | src/server.cpp:40-114 | every reply body says "success" exactly when the status is 200 |
| Server.RequestsKeepCacheValid | src/server.cpp:36-86 | every request keeps the cache's list and map in step and within Bound(capacity), GET hits and read-throughs of absent keys included; only a GET that meets an expired entry is excluded |
| Server.RoutedRequestsAreAnswered | src/server.cpp:31-112 | a request that matches a route never receives the fall-through 404 |
| Server.StoredTtl | src/server.cpp:36-43 | a stored cache POST uses the document's ttl, or 300 when it has none |
| Server.OnlyCacheRoutesAct | src/server.cpp:89-114 | hello, echo and unmatched requests reply at once without a cache call |
| Server.InvalidGetLeavesCache | src/server.cpp:59-65 | a GET without a key is answered 400 "Invalid request" and touches neither cache nor store |
| Server.InvalidJsonLeavesCache | src/server.cpp:46-50 | a cache POST whose body fails to parse is answered 400 "Invalid JSON" and stores nothing |
| Server.TypeErrorEscapes | src/server.cpp:36-38 | a parsed document without string key and value ends in an escaping exception and stores nothing |
| Server.FetchAnswers | src/server.cpp:70-79 | a GET answers 200 with the key and the value exactly when the cache's get returns a value, and 404 "Key not found" otherwise |
| Server.StoreAnswers | src/server.cpp:39-45 | a stored cache POST answers 200 with "Entry cached successfully", the key and the ttl the document gave |
| Server.EchoAnswers | src/server.cpp:96-101 | a parsed echo body is answered 200 with the document under "echo" |
| Server.ClearEmptiesCache | src/server.cpp:82-86 | the clear route empties the cache, leaves the store and reports success |

## Left out

- Metrics (`src/metrics.hpp`): the Prometheus counters and gauges that `get`, `evict` and the constructor update. They have no effect on the cache's behaviour.
- Mutexes, the background cleanup thread and its five-minute sleep, and the concurrency tests. `CleanupExpired` models one sweep; when it runs is not modelled.
- Real clocks. `steady_clock` and `system_clock` are the integer parameters `monoNow` and `wallNow` in whole seconds.
- Timestamp formatting. `to_time_t`, `localtime` and `put_time` truncate the expiry to whole seconds in local time; the model assumes the database compares in the same time zone.
- pqxx and the SQL engine. The table is a map, a failing statement is a `fault` input, and the table creation in the constructor is an optional error input.
- The exception texts of pqxx, the console output and `get_connection`.
- `nlohmann::json`: parsing is the oracle `parse`, and `dump()` is not modelled. A reply is a status code plus the JSON object before serialisation.
- The status line and header text of a reply.
- JSON floating-point numbers: `Json` has integers only, so a float `ttl` (which the source truncates) is not modelled.
- The socket loop of `HttpServer::start`, the destructor, and `main`. The request is a string given to `HandleRequest`. Its truncation to the 1024-byte read buffer is not modelled.
- `src/server.hpp` (declarations, `export_cache_data` without a body) and `tests/database_helper.hpp`.
- The `LRUCache` constructor opens its own `DatabaseConnection`. The model passes the store in, so that its table can be stated.
- An exception thrown by `std::async` itself is not modelled. `put` ignores the store write's boolean result, as the source does.
- Cache.LRUCache.Size: it returns `|cacheMap|` and carries no contract of its own. The size bound is stated by `CacheState.Valid` and the lemmas about it.
- DatabaseConfig.ConnectionString: its own contract gives only the host= prefix. The field order is stated by `DatabaseConfig.ConnectionStringFields`, and only for settings without spaces, since the source does not quote values.
- CacheState.RemoveFirst: its contract gives only the length and the unchanged case. That exactly the first occurrence is removed is the contract of `CacheState.RemoveFirstAt`.
- The capacity counterexample is stated on the `CacheState` step functions, which the class methods are proved to follow. It is not stated as a run of the class with string keys.

## Findings

| source | as written | input that shows it | evidently intended | confidence | as-written member | corrected member |
|---|---|---|---|---|---|---|
| src/cache.hpp:120 | the expired branch of `get` erases the key from `cache_map` but leaves it in `lru_list` | capacity 3, default TTL 300: put a with ttl 1, then b and c; at time 5 get a, which has expired (the store misses too); put d; put e; the last put evicts the stale `a` from the list, which erases nothing, and the map holds 4 entries. The same bug breaks the recency order: at capacity 2, put a (ttl 1) and b, get a at time 5 answered by the store, then put c; c evicts the stale tail `a`, the key just read through, and b survives (`CacheState.ExpiredRefillEvictsFreshKey`; corrected in `CacheState.FixedRefillKeepsFreshKey`) | also erase the key from `lru_list`, so the list keeps exactly the map's keys and the size stays within Bound(capacity) | high; not executed | CacheState.ExpiredGetOverflowsCapacity | CacheState.FixedGetKeepsValid |
| src/server.cpp:32-33 | `find("\r\n\r\n") + 4` is computed before the `npos` test, so the test never fails | a POST to /api/cached or /api/echo without a blank line: the parser is handed the request from its fourth character and the reply is 400 "Invalid JSON" instead of the fall-through 404 | test `find`'s result against `npos` before adding 4 | medium; not executed | Server.MissingHeaderEndParsesFromThree | Server.BodyStartChecked |

The classes `Cache.LRUCache` and `Server.HttpServer` keep the behaviour as written, so that they can be compared with the code line by line. The corrected definitions and their proofs stand beside them.
