/**
 * HttpServer::handle_request of src/server.cpp. The route is chosen by
 * substring search in a fixed order, the GET key is cut out of the request
 * line by position arithmetic on size_t, and a POST body goes through
 * nlohmann::json, whose parser is the oracle `parse` here. The cache behind
 * the server is the LRUCache class of module Cache.
 */
module Server {
  import opened Wrappers
  import opened CacheState
  import Cache
  import Database

  /** std::string::npos: the largest size_t value, 2^64 - 1. */
  const NPOS: nat := 0xFFFF_FFFF_FFFF_FFFF
  /** size_t arithmetic is modulo 2^64. */
  const SIZE_MOD: nat := 0x1_0000_0000_0000_0000

  /** Capacity and default TTL the server gives its cache (server.cpp:121). */
  const CacheSize: nat := 1024
  const CacheTtl: int := 300
  /** TTL used when a POST document has no "ttl" member (server.cpp:38). */
  const RequestTtl: int := 300

  // ---------------------------------------------------------------------
  // std::string::find
  // ---------------------------------------------------------------------

  /** pat occurs in s starting at index i. */
  predicate At(s: string, pat: string, i: nat)
  {
    i + |pat| <= |s| && s[i..i + |pat|] == pat
  }

  /** The first occurrence of pat in s at or after from. */
  function FindFrom(s: string, pat: string, from: nat): (r: Option<nat>)
    decreases |s| - from
    ensures r.Some? ==> from <= r.value && At(s, pat, r.value)
    ensures r.Some? ==> forall j :: from <= j < r.value ==> !At(s, pat, j)
    ensures r.None? ==> forall j :: from <= j ==> !At(s, pat, j)
  {
    if from + |pat| > |s| then None
    else if s[from..from + |pat|] == pat then Some(from)
    else FindFrom(s, pat, from + 1)
  }

  /** s.find(pat): the first occurrence, if any. */
  function Find(s: string, pat: string): (r: Option<nat>)
    ensures r.Some? ==> At(s, pat, r.value) && forall j :: 0 <= j < r.value ==> !At(s, pat, j)
    ensures r.None? ==> forall j :: !At(s, pat, j)
  {
    FindFrom(s, pat, 0)
  }

  predicate Contains(s: string, pat: string)
  {
    Find(s, pat).Some?
  }

  /** The index of the first occurrence as a size_t, npos when there is none. */
  function Pos(s: string, pat: string): (r: nat)
    requires |s| < NPOS
    ensures r == NPOS <==> !Contains(s, pat)
    ensures r != NPOS ==> r == Find(s, pat).value && r + |pat| <= |s|
  {
    match Find(s, pat)
    case Some(i) => i
    case None => NPOS
  }

  /** x + y evaluated in size_t. */
  function SizeAdd(x: nat, y: nat): (r: nat)
    requires x <= NPOS && y <= NPOS
    ensures r < SIZE_MOD
    ensures x + y < SIZE_MOD ==> r == x + y
    ensures x + y >= SIZE_MOD ==> r == x + y - SIZE_MOD
  {
    (x + y) % SIZE_MOD
  }

  /** The first occurrence of pat inside a slice is an occurrence in the whole string. */
  lemma AtInSlice(s: string, lo: nat, hi: nat, pat: string, j: nat)
    requires lo <= hi <= |s|
    requires At(s[lo..hi], pat, j)
    ensures At(s, pat, lo + j)
  {
    forall m | 0 <= m < |pat|
      ensures s[lo + j..lo + j + |pat|][m] == pat[m]
    {
      assert s[lo..hi][j..j + |pat|][m] == pat[m];
    }
  }

  /** A witness pins Find down to the first occurrence. */
  lemma FindIs(s: string, pat: string, i: nat)
    requires At(s, pat, i)
    requires forall j :: 0 <= j < i ==> !At(s, pat, j)
    ensures Find(s, pat) == Some(i)
  {
  }

  // ---------------------------------------------------------------------
  // Routes (server.cpp:31, 55, 82, 89, 95, 112)
  // ---------------------------------------------------------------------

  datatype Route = StoreEntry | FetchEntry | ClearCache | Hello | Echo | NoRoute

  /** The text each route is recognised by; NoRoute has none. */
  function Pattern(r: Route): string
  {
    match r
    case StoreEntry => "POST /api/cached"
    case FetchEntry => "GET /api/cached/"
    case ClearCache => "POST /api/cache/clear"
    case Hello => "GET /api/hello"
    case Echo => "POST /api/echo"
    case NoRoute => ""
  }

  /** The order in which handle_request tests the routes. */
  const Priority: seq<Route> := [StoreEntry, FetchEntry, ClearCache, Hello, Echo]

  /** The first route of Priority whose pattern occurs in the request, NoRoute when none does. */
  function RouteOf(req: string): (r: Route)
    ensures r != NoRoute ==> Contains(req, Pattern(r))
    ensures r != NoRoute ==> r in Priority
    ensures forall i :: 0 <= i < |Priority| && Priority[i] == r ==>
              forall j :: 0 <= j < i ==> !Contains(req, Pattern(Priority[j]))
    ensures r == NoRoute <==> forall i :: 0 <= i < |Priority| ==> !Contains(req, Pattern(Priority[i]))
  {
    if Contains(req, "POST /api/cached") then StoreEntry
    else if Contains(req, "GET /api/cached/") then FetchEntry
    else if Contains(req, "POST /api/cache/clear") then ClearCache
    else if Contains(req, "GET /api/hello") then Hello
    else if Contains(req, "POST /api/echo") then Echo
    else NoRoute
  }

  // ---------------------------------------------------------------------
  // Positions: GET key (server.cpp:56-67), POST body (server.cpp:32-35, 96-99)
  // ---------------------------------------------------------------------

  const KeyMarker: string := "/api/cached/"
  const VersionMarker: string := " HTTP/"
  const HeaderEnd: string := "\r\n\r\n"

  /** The key of a GET: from just after the first "/api/cached/" up to the first " HTTP/", None for the 400 reply. */
  function GetKey(req: string): (r: Option<string>)
    requires |req| < NPOS
    ensures Contains(req, KeyMarker) ==>
              var p := Find(req, KeyMarker).value;
              r.Some? <==> Contains(req, VersionMarker) && p + |KeyMarker| < Find(req, VersionMarker).value
    ensures r.Some? && Contains(req, KeyMarker) ==>
              r.value == req[Find(req, KeyMarker).value + |KeyMarker|..Find(req, VersionMarker).value]
    ensures r.Some? ==> r.value != [] && !Contains(r.value, VersionMarker)
  {
    var start := SizeAdd(Pos(req, KeyMarker), 12);
    var end := Pos(req, VersionMarker);
    if start == NPOS || end == NPOS || start >= end then None
    else
      KeyHoldsNoMarker(req, start, end);
      Some(req[start..end])
  }

  /** A slice that ends at the first " HTTP/" holds no " HTTP/" of its own. */
  lemma KeyHoldsNoMarker(req: string, start: nat, end: nat)
    requires start <= end <= |req|
    requires forall j :: 0 <= j < end ==> !At(req, VersionMarker, j)
    ensures !Contains(req[start..end], VersionMarker)
  {
    if Contains(req[start..end], VersionMarker) {
      AtInSlice(req, start, end, VersionMarker, Find(req[start..end], VersionMarker).value);
    }
  }

  /** request.find("\r\n\r\n") + 4 in size_t: 3 when the request has no blank line. */
  function BodyStart(req: string): (r: nat)
    requires |req| < NPOS
    ensures Contains(req, HeaderEnd) ==> r == Find(req, HeaderEnd).value + 4 && 4 <= r <= |req|
    ensures !Contains(req, HeaderEnd) ==> r == 3
  {
    SizeAdd(Pos(req, HeaderEnd), 4)
  }

  /** The guard `body_start != npos` never fails: the +4 has already moved npos away. */
  lemma BodyGuardNeverFails(req: string)
    requires |req| < NPOS
    ensures BodyStart(req) != NPOS
  {
  }

  /** request.substr(body_start); None is the std::out_of_range substr throws past the end. */
  function BodyText(req: string): (r: Option<string>)
    requires |req| < NPOS
    ensures r.Some? <==> BodyStart(req) <= |req|
    ensures r.Some? ==> r.value == req[BodyStart(req)..]
  {
    var start := BodyStart(req);
    if start <= |req| then Some(req[start..]) else None
  }

  /** A request that has matched either POST route is long enough for substr never to throw. */
  lemma RoutedBodyExists(req: string)
    requires |req| < NPOS
    ensures RouteOf(req) == StoreEntry || RouteOf(req) == Echo ==> BodyText(req).Some?
  {
    var route := RouteOf(req);
    if route == StoreEntry || route == Echo {
      assert At(req, Pattern(route), Find(req, Pattern(route)).value);
    }
  }

  /** Without a blank line the "body" handed to the parser is the request from its fourth character on. */
  lemma MissingHeaderEndParsesFromThree(req: string)
    requires 3 <= |req| < NPOS
    requires !Contains(req, HeaderEnd)
    ensures BodyText(req) == Some(req[3..])
  {
  }

  /** What the guard evidently meant to test: where the body starts, None when there is no blank line. */
  function BodyStartChecked(req: string): (r: Option<nat>)
    ensures r.None? <==> !Contains(req, HeaderEnd)
    ensures r.Some? ==> 4 <= r.value <= |req| && req[r.value - 4..r.value] == HeaderEnd
    ensures r.Some? ==> forall j :: 0 <= j < r.value - 4 ==> !At(req, HeaderEnd, j)
  {
    match Find(req, HeaderEnd)
    case None => None
    case Some(i) => Some(i + 4)
  }

  /** Where a blank line exists the checked position agrees with the one the source computes. */
  lemma CheckedAgreesWhenPresent(req: string)
    requires |req| < NPOS
    requires Contains(req, HeaderEnd)
    ensures BodyStartChecked(req) == Some(BodyStart(req))
  {
  }

  // ---------------------------------------------------------------------
  // JSON (nlohmann::json as an oracle)
  // ---------------------------------------------------------------------

  datatype Json =
    | JNull
    | JBool(b: bool)
    | JInt(n: int)
    | JString(s: string)
    | JArray(items: seq<Json>)
    | JObject(members: map<string, Json>)

  /** json::parse: a document, or the json::parse_error it throws. */
  datatype Parsed = Document(doc: Json) | ParseError

  /** static_cast<int> of a JSON integer: two's complement wrap into 32 bits. */
  function ToInt32(n: int): (r: int)
    ensures -0x8000_0000 <= r < 0x8000_0000
    ensures (n - r) % 0x1_0000_0000 == 0
    ensures -0x8000_0000 <= n < 0x8000_0000 ==> r == n
  {
    (n + 0x8000_0000) % 0x1_0000_0000 - 0x8000_0000
  }

  /** The fields of a cache POST. */
  datatype NewEntry = NewEntry(key: string, value: string, ttl: int)

  /** request_body.value("ttl", 300) on an object: None is the json::type_error of get<int>. */
  function TtlField(members: map<string, Json>): (r: Option<int>)
    ensures "ttl" !in members ==> r == Some(RequestTtl)
    ensures "ttl" in members && members["ttl"].JInt? ==> r == Some(ToInt32(members["ttl"].n))
    ensures r.None? <==> "ttl" in members && !members["ttl"].JInt? && !members["ttl"].JBool?
  {
    if "ttl" !in members then Some(RequestTtl)
    else match members["ttl"]
      case JInt(n) => Some(ToInt32(n))
      case JBool(b) => Some(if b then 1 else 0)
      case _ => None
  }

  /**
   * request_body["key"].get<std::string>(), the same for "value", then the
   * TTL. None is a json::type_error: the document is not an object (null
   * becomes an empty object under operator[] and fails the same way), a
   * member is missing or is not a string, or "ttl" is neither a number nor a
   * boolean.
   */
  function EntryFields(doc: Json): (r: Option<NewEntry>)
    ensures r.Some? <==> doc.JObject? && "key" in doc.members && doc.members["key"].JString?
                          && "value" in doc.members && doc.members["value"].JString?
                          && TtlField(doc.members).Some?
    ensures r.Some? ==> r.value == NewEntry(doc.members["key"].s, doc.members["value"].s, TtlField(doc.members).value)
  {
    match doc
    case JObject(m) =>
      if "key" in m && m["key"].JString? && "value" in m && m["value"].JString? then
        match TtlField(m)
        case Some(ttl) => Some(NewEntry(m["key"].s, m["value"].s, ttl))
        case None => None
      else None
    case _ => None
  }

  // ---------------------------------------------------------------------
  // Replies
  // ---------------------------------------------------------------------

  /**
   * An HTTP status with the JSON object of the body, or Escaped: an
   * exception other than json::parse_error leaves handle_request, and with
   * it HttpServer::start, so no reply is sent.
   */
  datatype Reply = Response(code: nat, body: map<string, Json>) | Escaped

  function Success(fields: map<string, Json>): (r: Reply)
    ensures r.Response? && r.code == 200 && "status" in r.body && r.body["status"] == JString("success")
    ensures forall f :: f in fields && f != "status" ==> f in r.body && r.body[f] == fields[f]
  {
    Response(200, fields["status" := JString("success")])
  }

  function Failure(code: nat, error: string): (r: Reply)
    ensures r.Response? && r.code == code
    ensures r.body == map["error" := JString(error), "status" := JString("error")]
  {
    Response(code, map["error" := JString(error), "status" := JString("error")])
  }

  /** The reply to a cache POST that was stored. */
  function CachedReply(e: NewEntry): Reply
  {
    Success(map["message" := JString("Entry cached successfully"), "key" := JString(e.key), "ttl" := JInt(e.ttl)])
  }

  /** The reply to a GET, from what the cache answered. */
  function FetchedReply(key: string, found: Option<string>): Reply
  {
    match found
    case Some(v) => Success(map["key" := JString(key), "value" := JString(v)])
    case None => Failure(404, "Key not found")
  }

  const ClearedReply: Reply := Success(map["message" := JString("Cache cleared")])
  const HelloReply: Reply := Success(map["message" := JString("Hello, World!")])
  const InvalidJson: Reply := Failure(400, "Invalid JSON")
  const InvalidRequest: Reply := Failure(400, "Invalid request")
  const NotFound: Reply := Failure(404, "Not Found")

  /** Every reply body says "success" exactly when the status is 200. */
  predicate Consistent(r: Reply)
  {
    r.Response? ==> "status" in r.body && (r.code == 200 <==> r.body["status"] == JString("success"))
  }

  // ---------------------------------------------------------------------
  // handle_request
  // ---------------------------------------------------------------------

  /** What handle_request does: reply at once, or call into the cache and reply from its answer. */
  datatype Action =
    | Respond(reply: Reply)
    | Store(entry: NewEntry)
    | Fetch(key: string)
    | Wipe

  /** The action for a POST whose body is parsed: the cache route or echo. */
  function PostAction(req: string, route: Route, parse: string -> Parsed): Action
    requires |req| < NPOS
  {
    if BodyStart(req) == NPOS then Respond(NotFound)
    else match BodyText(req)
      case None => Respond(Escaped)
      case Some(body) =>
        match parse(body)
        case ParseError => Respond(InvalidJson)
        case Document(doc) =>
          if route == Echo then Respond(Success(map["echo" := doc]))
          else match EntryFields(doc)
            case Some(e) => Store(e)
            case None => Respond(Escaped)
  }

  /** The pure part of handle_request: route selection, key extraction and the fixed replies. */
  function Plan(req: string, parse: string -> Parsed): (a: Action)
    requires |req| < NPOS
    ensures a.Store? <==> RouteOf(req) == StoreEntry && BodyText(req).Some?
                          && parse(BodyText(req).value).Document?
                          && EntryFields(parse(BodyText(req).value).doc).Some?
    ensures a.Store? ==> a.entry == EntryFields(parse(BodyText(req).value).doc).value
    ensures a.Fetch? <==> RouteOf(req) == FetchEntry && GetKey(req).Some?
    ensures a.Fetch? ==> a.key == GetKey(req).value
    ensures a.Wipe? <==> RouteOf(req) == ClearCache
    ensures RouteOf(req) == FetchEntry && GetKey(req).None? ==> a == Respond(InvalidRequest)
    ensures ((RouteOf(req) == StoreEntry || RouteOf(req) == Echo)
             && BodyText(req).Some? && parse(BodyText(req).value) == ParseError) ==> a == Respond(InvalidJson)
    ensures RouteOf(req) == Hello ==> a == Respond(HelloReply)
    ensures RouteOf(req) == NoRoute ==> a == Respond(NotFound)
    ensures a.Respond? ==> Consistent(a.reply)
  {
    var route := RouteOf(req);
    BodyGuardNeverFails(req);
    RoutedBodyExists(req);
    match route
    case StoreEntry => PostAction(req, route, parse)
    case FetchEntry =>
      (match GetKey(req)
       case Some(key) => Fetch(key)
       case None => Respond(InvalidRequest))
    case ClearCache => Wipe
    case Hello => Respond(HelloReply)
    case Echo => PostAction(req, route, parse)
    case NoRoute => Respond(NotFound)
  }

  /**
   * The reply, the cache memory and the store table a planned action leaves
   * behind: the cache and store steps of modules CacheState and Database.
   */
  function Outcome(a: Action, m: Memory<string, string>, t: Database.Table, capacity: nat, defaultTtl: int,
                   monoNow: int, wallNow: int, dbFault: bool, putFault: bool): (Reply, Memory<string, string>, Database.Table)
  {
    match a
    case Respond(r) => (r, m, t)
    case Store(e) =>
      var ttl := EffectiveTtl(e.ttl, defaultTtl);
      (CachedReply(e), PutStep(m, capacity, e.key, Entry(e.value, monoNow + ttl)),
       if dbFault then t else Database.Upserted(t, e.key, e.value, wallNow + ttl, wallNow))
    case Fetch(key) =>
      var stored := if dbFault then None else Database.Lookup(t, key, wallNow);
      var got := GetStep(m, capacity, defaultTtl, key, monoNow, stored);
      (FetchedReply(key, got.0), got.1,
       if ProbeStep(m, key, monoNow).Miss? && stored.Some? && !putFault
       then Database.Upserted(t, key, stored.value, wallNow + EffectiveTtl(0, defaultTtl), wallNow)
       else t)
    case Wipe => (ClearedReply, Empty(), t)
  }

  class HttpServer {
    const cache: Cache.LRUCache

    /** HttpServer(port, stop) builds its cache as LRUCache(1024, 300s); the port and the stop flag belong to start(). */
    constructor (store: Database.DatabaseConnection)
      ensures fresh(cache)
      ensures cache.capacity == CacheSize && cache.defaultTtl == CacheTtl && cache.db == store
      ensures cache.Mem() == Empty()
    {
      cache := new Cache.LRUCache(CacheSize, CacheTtl, store);
    }

    /**
     * handle_request (server.cpp:30-115): Plan, then the cache call the plan
     * names. monoNow and wallNow are the clocks the cache reads; dbFault and
     * putFault say whether the store's get and the write a read-through
     * issues fail.
     */
    method HandleRequest(request: string, parse: string -> Parsed, monoNow: int, wallNow: int, dbFault: bool, putFault: bool)
      returns (reply: Reply)
      requires |request| < NPOS
      modifies cache, cache.db
      ensures (reply, cache.Mem(), cache.db.table)
              == Outcome(Plan(request, parse), old(cache.Mem()), old(cache.db.table), cache.capacity, cache.defaultTtl,
                         monoNow, wallNow, dbFault, putFault)
    {
      var action := Plan(request, parse);
      reply := Perform(action, monoNow, wallNow, dbFault, putFault);
    }

    /** The cache call of handle_request and the reply built from its answer (server.cpp:39-45, 70-79, 83-86). */
    method Perform(action: Action, monoNow: int, wallNow: int, dbFault: bool, putFault: bool) returns (reply: Reply)
      modifies cache, cache.db
      ensures (reply, cache.Mem(), cache.db.table)
              == Outcome(action, old(cache.Mem()), old(cache.db.table), cache.capacity, cache.defaultTtl,
                         monoNow, wallNow, dbFault, putFault)
    {
      match action
      case Respond(r) =>
        reply := r;
      case Store(e) =>
        StoreOutcome(e, cache.Mem(), cache.db.table, cache.capacity, cache.defaultTtl, monoNow, wallNow, dbFault, putFault);
        cache.Put(e.key, e.value, e.ttl, monoNow, wallNow, dbFault);
        reply := CachedReply(e);
      case Fetch(key) =>
        FetchOutcome(key, cache.Mem(), cache.db.table, cache.capacity, cache.defaultTtl, monoNow, wallNow, dbFault, putFault);
        var found := cache.Get(key, monoNow, wallNow, dbFault, putFault);
        reply := FetchedReply(key, found);
      case Wipe =>
        cache.Clear();
        reply := ClearedReply;
    }
  }

  /** Every reply handle_request produces says "success" in its body exactly when its status is 200. */
  lemma RepliesAreConsistent(req: string, parse: string -> Parsed, m: Memory<string, string>, t: Database.Table,
                             capacity: nat, defaultTtl: int, monoNow: int, wallNow: int, dbFault: bool, putFault: bool)
    requires |req| < NPOS
    ensures Consistent(Outcome(Plan(req, parse), m, t, capacity, defaultTtl, monoNow, wallNow, dbFault, putFault).0)
  {
  }

  /**
   * Every request keeps the map and the recency list in step and within
   * Bound(capacity), except a GET that meets an expired entry: hits and
   * read-throughs of absent keys keep it.
   */
  lemma RequestsKeepCacheValid(a: Action, m: Memory<string, string>, t: Database.Table,
                               capacity: nat, defaultTtl: int, monoNow: int, wallNow: int, dbFault: bool, putFault: bool)
    requires Valid(m, capacity)
    requires a.Fetch? && a.key in m.entries ==> monoNow <= m.entries[a.key].expiry
    ensures Valid(Outcome(a, m, t, capacity, defaultTtl, monoNow, wallNow, dbFault, putFault).1, capacity)
  {
    match a
    case Respond(_) =>
    case Store(e) =>
      PutKeepsValid(m, capacity, e.key, Entry(e.value, monoNow + EffectiveTtl(e.ttl, defaultTtl)));
      StoreOutcome(e, m, t, capacity, defaultTtl, monoNow, wallNow, dbFault, putFault);
    case Fetch(key) =>
      var stored := if dbFault then None else Database.Lookup(t, key, wallNow);
      GetKeepsValidUnlessExpired(m, capacity, defaultTtl, key, monoNow, stored);
      FetchOutcome(key, m, t, capacity, defaultTtl, monoNow, wallNow, dbFault, putFault);
    case Wipe =>
  }

  /** The effects of a store, case by case: the put step, and the upsert unless the write fails. */
  lemma StoreOutcome(e: NewEntry, m: Memory<string, string>, t: Database.Table,
                     capacity: nat, defaultTtl: int, monoNow: int, wallNow: int, dbFault: bool, putFault: bool)
    ensures var ttl := EffectiveTtl(e.ttl, defaultTtl);
            Outcome(Store(e), m, t, capacity, defaultTtl, monoNow, wallNow, dbFault, putFault)
            == (CachedReply(e), PutStep(m, capacity, e.key, Entry(e.value, monoNow + ttl)),
                if dbFault then t else Database.Upserted(t, e.key, e.value, wallNow + ttl, wallNow))
  {
  }

  /** The effects of a fetch: the get step, and the read-through's upsert unless its write fails. */
  lemma FetchOutcome(key: string, m: Memory<string, string>, t: Database.Table,
                     capacity: nat, defaultTtl: int, monoNow: int, wallNow: int, dbFault: bool, putFault: bool)
    ensures var stored := if dbFault then None else Database.Lookup(t, key, wallNow);
            var got := GetStep(m, capacity, defaultTtl, key, monoNow, stored);
            Outcome(Fetch(key), m, t, capacity, defaultTtl, monoNow, wallNow, dbFault, putFault)
            == (FetchedReply(key, got.0), got.1,
                if !(key in m.entries && monoNow <= m.entries[key].expiry) && stored.Some? && !putFault
                then Database.Upserted(t, key, stored.value, wallNow + EffectiveTtl(0, defaultTtl), wallNow)
                else t)
  {
  }

  /**
   * A GET answers 200 with the key and the value exactly when the cache's
   * get succeeds, and 404 "Key not found" otherwise.
   */
  lemma FetchAnswers(key: string, m: Memory<string, string>, t: Database.Table,
                     capacity: nat, defaultTtl: int, monoNow: int, wallNow: int, dbFault: bool, putFault: bool)
    ensures var stored := if dbFault then None else Database.Lookup(t, key, wallNow);
            var got := GetStep(m, capacity, defaultTtl, key, monoNow, stored).0;
            var reply := Outcome(Fetch(key), m, t, capacity, defaultTtl, monoNow, wallNow, dbFault, putFault).0;
            && reply.Response?
            && (reply.code == 200 <==> got.Some?)
            && (got.Some? ==> "key" in reply.body && reply.body["key"] == JString(key)
                              && "value" in reply.body && reply.body["value"] == JString(got.value))
            && (got.None? ==> reply == Failure(404, "Key not found"))
  {
    FetchOutcome(key, m, t, capacity, defaultTtl, monoNow, wallNow, dbFault, putFault);
  }

  /** A stored entry is answered 200 with the message, the key and the ttl the document gave. */
  lemma StoreAnswers(e: NewEntry, m: Memory<string, string>, t: Database.Table,
                     capacity: nat, defaultTtl: int, monoNow: int, wallNow: int, dbFault: bool, putFault: bool)
    ensures var reply := Outcome(Store(e), m, t, capacity, defaultTtl, monoNow, wallNow, dbFault, putFault).0;
            && reply.Response? && reply.code == 200
            && "message" in reply.body && reply.body["message"] == JString("Entry cached successfully")
            && "key" in reply.body && reply.body["key"] == JString(e.key)
            && "ttl" in reply.body && reply.body["ttl"] == JInt(e.ttl)
  {
    StoreOutcome(e, m, t, capacity, defaultTtl, monoNow, wallNow, dbFault, putFault);
  }

  /** The echo route answers 200 with the parsed document under "echo". */
  lemma EchoAnswers(req: string, parse: string -> Parsed)
    requires |req| < NPOS && RouteOf(req) == Echo
    requires BodyText(req).Some? && parse(BodyText(req).value).Document?
    ensures Plan(req, parse) == Respond(Success(map["echo" := parse(BodyText(req).value).doc]))
    ensures Plan(req, parse).reply.code == 200
    ensures "echo" in Plan(req, parse).reply.body
            && Plan(req, parse).reply.body["echo"] == parse(BodyText(req).value).doc
  {
    BodyGuardNeverFails(req);
  }

  // ---------------------------------------------------------------------
  // Properties of requests as clients write them
  // ---------------------------------------------------------------------

  /** A GET request line with the key k. */
  function FetchLine(k: string, rest: string): string
  {
    "GET /api/cached/" + k + " HTTP/" + rest
  }

  /**
   * The key a client puts in the path is the key handle_request extracts,
   * as long as it does not itself contain " HTTP/"; an empty one is the 400
   * case. No proper prefix of " HTTP/" is also a suffix of it, so no
   * occurrence can start inside k and end in the version marker.
   */
  lemma {:induction false} GetKeyRoundTrip(k: string, rest: string)
    requires !Contains(k, VersionMarker)
    requires |FetchLine(k, rest)| < NPOS
    ensures GetKey(FetchLine(k, rest)) == if k == [] then None else Some(k)
  {
    var req := FetchLine(k, rest);
    var head := "GET /api/cached/";
    assert req[..16] == head;
    assert req[16..16 + |k|] == k;
    assert req[16 + |k|..16 + |k| + 6] == VersionMarker;
    assert At(req, KeyMarker, 4) by {
      assert req[4..16] == head[4..16];
    }
    forall j | 0 <= j < 4
      ensures !At(req, KeyMarker, j)
    {
      assert req[j] == head[j];
      assert j + 12 <= |req| ==> req[j..j + 12][0] == req[j];
    }
    FindIs(req, KeyMarker, 4);
    var e := 16 + |k|;
    forall j | 0 <= j < e
      ensures !At(req, VersionMarker, j)
    {
      if j < 16 {
        assert req[j] == head[j];
        if j == 3 {
          assert req[j + 1] == head[j + 1];
        }
        assert j + 6 <= |req| ==> req[j..j + 6][0] == req[j] && req[j..j + 6][1] == req[j + 1];
      } else {
        KeyPartHoldsNoMarker(req, k, j);
      }
    }
    FindIs(req, VersionMarker, e);
  }

  /** No " HTTP/" starts inside a key that has none and is followed by a space. */
  lemma KeyPartHoldsNoMarker(req: string, k: string, j: nat)
    requires 16 + |k| + 6 <= |req| && req[16..16 + |k|] == k && req[16 + |k|] == ' '
    requires !Contains(k, VersionMarker)
    requires 16 <= j < 16 + |k|
    ensures !At(req, VersionMarker, j)
  {
    var e := 16 + |k|;
    if j + 6 <= e {
      assert req[j..j + 6] == k[j - 16..j - 10];
      assert !At(k, VersionMarker, j - 16);
    } else {
      assert req[j..j + 6][e - j] == req[e] == ' ';
      assert VersionMarker[e - j] != ' ';
    }
  }

  /** A route with a recognised pattern never falls through to the 404 reply. */
  lemma RoutedRequestsAreAnswered(req: string, parse: string -> Parsed)
    requires |req| < NPOS
    requires RouteOf(req) != NoRoute
    ensures Plan(req, parse) != Respond(NotFound)
  {
    match RouteOf(req)
    case StoreEntry => PostActionAnswers(req, StoreEntry, parse);
    case Echo => PostActionAnswers(req, Echo, parse);
    case FetchEntry =>
    case ClearCache =>
    case Hello => assert HelloReply.code == 200;
  }

  /** Since the body guard never fails, a POST never gets the 404 reply. */
  lemma PostActionAnswers(req: string, route: Route, parse: string -> Parsed)
    requires |req| < NPOS
    ensures PostAction(req, route, parse) != Respond(NotFound)
  {
    BodyGuardNeverFails(req);
    assert NotFound.code == 404 && InvalidJson.code == 400;
  }

  /** A cache POST that stores an entry reports the TTL it stored, 300 when the document gave none. */
  lemma StoredTtl(req: string, parse: string -> Parsed)
    requires |req| < NPOS
    requires Plan(req, parse).Store?
    ensures var doc := parse(BodyText(req).value).doc;
            Plan(req, parse).entry.ttl == if "ttl" in doc.members then TtlField(doc.members).value else RequestTtl
  {
  }

  /** Only the three cache routes touch the cache; every other request leaves it and the store as they were. */
  lemma OnlyCacheRoutesAct(req: string, parse: string -> Parsed)
    requires |req| < NPOS
    requires RouteOf(req) !in {StoreEntry, FetchEntry, ClearCache}
    ensures Plan(req, parse).Respond?
  {
  }

  /** A GET whose key cannot be cut out is answered 400 "Invalid request" and touches neither cache nor store. */
  lemma InvalidGetLeavesCache(req: string, parse: string -> Parsed, m: Memory<string, string>, t: Database.Table,
                              capacity: nat, defaultTtl: int, monoNow: int, wallNow: int, dbFault: bool, putFault: bool)
    requires |req| < NPOS
    requires RouteOf(req) == FetchEntry && GetKey(req).None?
    ensures Outcome(Plan(req, parse), m, t, capacity, defaultTtl, monoNow, wallNow, dbFault, putFault)
            == (Failure(400, "Invalid request"), m, t)
  {
  }

  /** A cache POST whose body does not parse is answered 400 "Invalid JSON" and stores nothing. */
  lemma InvalidJsonLeavesCache(req: string, parse: string -> Parsed, m: Memory<string, string>, t: Database.Table,
                               capacity: nat, defaultTtl: int, monoNow: int, wallNow: int, dbFault: bool, putFault: bool)
    requires |req| < NPOS
    requires RouteOf(req) == StoreEntry
    requires BodyText(req).Some? ==> parse(BodyText(req).value) == ParseError
    ensures Outcome(Plan(req, parse), m, t, capacity, defaultTtl, monoNow, wallNow, dbFault, putFault)
            == (Failure(400, "Invalid JSON"), m, t)
  {
    RoutedBodyExists(req);
  }

  /**
   * A cache POST whose document parses but lacks a string "key" or "value",
   * or has a "ttl" that is neither a number nor a boolean, ends in a json::type_error that
   * nothing catches: no reply, and the cache is untouched.
   */
  lemma TypeErrorEscapes(req: string, parse: string -> Parsed, m: Memory<string, string>, t: Database.Table,
                         capacity: nat, defaultTtl: int, monoNow: int, wallNow: int, dbFault: bool, putFault: bool)
    requires |req| < NPOS
    requires RouteOf(req) == StoreEntry
    requires BodyText(req).Some? ==> parse(BodyText(req).value).Document? && EntryFields(parse(BodyText(req).value).doc).None?
    ensures Outcome(Plan(req, parse), m, t, capacity, defaultTtl, monoNow, wallNow, dbFault, putFault) == (Escaped, m, t)
  {
    RoutedBodyExists(req);
  }

  /** The clear route empties the cache memory, leaves the store alone and reports success. */
  lemma ClearEmptiesCache(req: string, parse: string -> Parsed, m: Memory<string, string>, t: Database.Table,
                          capacity: nat, defaultTtl: int, monoNow: int, wallNow: int, dbFault: bool, putFault: bool)
    requires |req| < NPOS
    requires RouteOf(req) == ClearCache
    ensures var (reply, after, t') := Outcome(Plan(req, parse), m, t, capacity, defaultTtl, monoNow, wallNow, dbFault, putFault);
            reply.Response? && reply.code == 200 && reply.body["status"] == JString("success")
            && after == Empty() && t' == t
  {
  }

  /** start_pos is find(...) + 12 in size_t: it never equals npos, so that part of the 400 guard is dead too. */
  lemma KeyStartNeverNpos(req: string)
    requires |req| < NPOS
    ensures SizeAdd(Pos(req, KeyMarker), 12) != NPOS
  {
  }
}
