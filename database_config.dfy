/**
 * The DatabaseConnection constructor of src/database.hpp before and around the
 * connection itself: choosing each connection parameter, building the libpq
 * connection string, and the bounded retry loop with exponential backoff.
 * getenv is the map `env` (a set variable may hold ""), getpwuid is the
 * optional passwd name, and each connection attempt's outcome is an input.
 */
module DatabaseConfig {
  import opened Wrappers

  type Env = map<string, string>

  /** host, port, database name, user and password, as given or as resolved. */
  datatype Settings = Settings(host: string, port: string, dbname: string, user: string, password: string)

  const DefaultHost := "localhost"
  const DefaultPort := "5432"
  const DefaultDbName := "cache_db"
  const FallbackUser := "postgres"
  const FailurePrefix := "Database connection failed: "
  const MaxRetries := 5

  /** get_env_or_default: the variable's value when it is set, even to "". */
  function EnvOrDefault(env: Env, name: string, default: string): string
  {
    if name in env then env[name] else default
  }

  /** A parameter's precedence: a non-empty argument, else the set variable, else the default. */
  ghost predicate ChosenFrom(r: string, arg: string, env: Env, name: string, default: string)
  {
    && (arg != "" ==> r == arg)
    && (arg == "" && name in env ==> r == env[name])
    && (arg == "" && name !in env ==> r == default)
  }

  /** get_system_username (database.hpp:21-33). */
  function SystemUsername(env: Env, passwdName: Option<string>): (u: string)
    ensures "USER" in env ==> u == env["USER"]
    ensures "USER" !in env && passwdName.Some? ==> u == passwdName.value
    ensures "USER" !in env && passwdName.None? ==> u == FallbackUser
  {
    if "USER" in env then env["USER"]
    else if passwdName.Some? then passwdName.value
    else FallbackUser
  }

  function Choose(arg: string, env: Env, name: string, default: string): string
  {
    if arg != "" then arg else EnvOrDefault(env, name, default)
  }

  /** The five actual_* parameters of the constructor (database.hpp:48-62). */
  function Resolve(args: Settings, env: Env, passwdName: Option<string>): (s: Settings)
    ensures ChosenFrom(s.host, args.host, env, "POSTGRES_HOST", DefaultHost)
    ensures ChosenFrom(s.port, args.port, env, "POSTGRES_PORT", DefaultPort)
    ensures ChosenFrom(s.dbname, args.dbname, env, "POSTGRES_DB", DefaultDbName)
    ensures ChosenFrom(s.user, args.user, env, "POSTGRES_USER", SystemUsername(env, passwdName))
    ensures ChosenFrom(s.password, args.password, env, "POSTGRES_PASSWORD", "")
  {
    Settings(
      Choose(args.host, env, "POSTGRES_HOST", DefaultHost),
      Choose(args.port, env, "POSTGRES_PORT", DefaultPort),
      Choose(args.dbname, env, "POSTGRES_DB", DefaultDbName),
      Choose(args.user, env, "POSTGRES_USER", SystemUsername(env, passwdName)),
      Choose(args.password, env, "POSTGRES_PASSWORD", ""))
  }

  /** Without arguments or variables, the documented defaults apply. */
  lemma DefaultsApply(env: Env, passwdName: Option<string>)
    requires "POSTGRES_HOST" !in env && "POSTGRES_PORT" !in env && "POSTGRES_DB" !in env
    requires "POSTGRES_USER" !in env && "POSTGRES_PASSWORD" !in env
    ensures Resolve(Settings("", "", "", "", ""), env, passwdName)
            == Settings(DefaultHost, DefaultPort, DefaultDbName, SystemUsername(env, passwdName), "")
  {
  }

  /** The index of the first space in s, |s| when there is none. */
  function FirstSpace(s: string): (i: nat)
    ensures i <= |s|
    ensures i < |s| ==> s[i] == ' '
    ensures forall j :: 0 <= j < i ==> s[j] != ' '
  {
    if s == [] || s[0] == ' ' then 0 else 1 + FirstSpace(s[1..])
  }

  /** s split at every space: the keyword=value items a conninfo parser reads. */
  function Fields(s: string): seq<string>
    decreases |s|
  {
    var i := FirstSpace(s);
    if i == |s| then [s] else [s[..i]] + Fields(s[i + 1..])
  }

  /** A field with no space, a space, then the rest: the field comes first. */
  lemma FieldsOfJoin(a: string, b: string)
    requires ' ' !in a
    ensures Fields(a + " " + b) == [a] + Fields(b)
  {
    var s := a + " " + b;
    assert s[|a|] == ' ';
    forall j | 0 <= j < |a| ensures s[j] != ' ' {
      assert s[j] == a[j];
    }
    assert FirstSpace(s) == |a|;
    assert s[..|a|] == a;
    assert s[|a| + 1..] == b;
  }

  /** A string with no space is a single field. */
  lemma FieldsOfWord(a: string)
    requires ' ' !in a
    ensures Fields(a) == [a]
  {
  }

  /** The connection string (database.hpp:65-72). */
  function ConnectionString(s: Settings): (cs: string)
    ensures |cs| >= 5 && cs[..5] == "host="
  {
    var base := "host=" + s.host + " port=" + s.port + " dbname=" + s.dbname + " user=" + s.user;
    if s.password != "" then base + " password=" + s.password else base
  }

  /**
   * Read back at its spaces, the connection string holds host, port, dbname
   * and user in that order, then the password exactly when it is not empty.
   * Values are not quoted, so this holds only for settings without spaces.
   */
  lemma ConnectionStringFields(s: Settings)
    requires ' ' !in s.host && ' ' !in s.port && ' ' !in s.dbname && ' ' !in s.user && ' ' !in s.password
    ensures Fields(ConnectionString(s))
            == ["host=" + s.host, "port=" + s.port, "dbname=" + s.dbname, "user=" + s.user]
               + (if s.password != "" then ["password=" + s.password] else [])
  {
    var h, p, d, u, w := "host=" + s.host, "port=" + s.port, "dbname=" + s.dbname, "user=" + s.user,
                         "password=" + s.password;
    assert ' ' !in h && ' ' !in p && ' ' !in d && ' ' !in u && ' ' !in w;
    var tail := if s.password != "" then u + " " + w else u;
    var more := if s.password != "" then [w] else [];
    if s.password != "" {
      FieldsOfJoin(u, w);
      FieldsOfWord(w);
    } else {
      FieldsOfWord(u);
    }
    assert Fields(tail) == [u] + more;
    ConnectionStringJoined(s);
    JoinedFields(h, p, d, tail);
  }

  /** Three space-free fields in front of a tail read back as those fields, then the tail's. */
  lemma JoinedFields(h: string, p: string, d: string, tail: string)
    requires ' ' !in h && ' ' !in p && ' ' !in d
    ensures Fields(h + " " + (p + " " + (d + " " + tail))) == [h, p, d] + Fields(tail)
  {
    FieldsOfJoin(d, tail);
    FieldsOfJoin(p, d + " " + tail);
    FieldsOfJoin(h, p + " " + (d + " " + tail));
  }

  /** The connection string as its fields joined by single spaces. */
  lemma ConnectionStringJoined(s: Settings)
    ensures var tail := if s.password != "" then "user=" + s.user + " " + ("password=" + s.password) else "user=" + s.user;
            ConnectionString(s) == ("host=" + s.host) + " " + (("port=" + s.port) + " " + (("dbname=" + s.dbname) + " " + tail))
  {
    assert " port=" == " " + "port=" && " dbname=" == " " + "dbname=";
    assert " user=" == " " + "user=" && " password=" == " " + "password=";
  }

  /** The password clause is appended exactly when the password is non-empty. */
  lemma PasswordClause(s: Settings)
    ensures s.password == "" ==> ConnectionString(s) == ConnectionString(s.(password := ""))
    ensures s.password != "" ==>
      ConnectionString(s) == ConnectionString(s.(password := "")) + " password=" + s.password
  {
  }

  /** 2^n, the wait before attempt n + 2. */
  function Pow2(n: nat): nat
  {
    if n == 0 then 1 else 2 * Pow2(n - 1)
  }

  /** The waits slept after the first n failed attempts: 1, 2, 4, ... seconds. */
  function BackoffWaits(n: nat): (w: seq<nat>)
    ensures |w| == n
    ensures forall i :: 0 <= i < n ==> w[i] == Pow2(i)
  {
    if n == 0 then [] else BackoffWaits(n - 1) + [Pow2(n - 1)]
  }

  /** Outcome of the constructor: connected after some attempts, or the exception it throws. */
  datatype Connection =
    | Connected(connString: string, attempts: nat, waits: seq<nat>)
    | ConnectFailed(message: string, waits: seq<nat>)

  /**
   * The retry loop and table creation (database.hpp:79-116). Attempt i
   * (counting from 0) throws failures[i] when i < |failures| and connects
   * otherwise; initError, when set, is the exception thrown while creating
   * the table. Every exception is rethrown with FailurePrefix.
   */
  method Connect(connString: string, failures: seq<string>, initError: Option<string>) returns (c: Connection)
    ensures |failures| >= MaxRetries ==>
      c == ConnectFailed(FailurePrefix + failures[MaxRetries - 1], BackoffWaits(MaxRetries - 1))
    ensures |failures| < MaxRetries && initError.Some? ==>
      c == ConnectFailed(FailurePrefix + initError.value, BackoffWaits(|failures|))
    ensures |failures| < MaxRetries && initError.None? ==>
      c == Connected(connString, |failures| + 1, BackoffWaits(|failures|))
  {
    var retryCount := 0;
    var waitTime := 1;
    var waits: seq<nat> := [];
    while retryCount < MaxRetries
      invariant 0 <= retryCount < MaxRetries
      invariant retryCount <= |failures|
      invariant waitTime == Pow2(retryCount)
      invariant waits == BackoffWaits(retryCount)
    {
      if retryCount < |failures| {
        // the attempt throws
        retryCount := retryCount + 1;
        if retryCount == MaxRetries {
          return ConnectFailed(FailurePrefix + failures[retryCount - 1], waits);
        }
        waits := waits + [waitTime];
        waitTime := waitTime * 2;
      } else {
        break;
      }
    }
    if initError.Some? {
      return ConnectFailed(FailurePrefix + initError.value, waits);
    }
    return Connected(connString, retryCount + 1, waits);
  }

  /** At most five attempts, sleeping 1, 2, 4 and 8 seconds between them. */
  lemma WaitsBeforeGivingUp()
    ensures BackoffWaits(MaxRetries - 1) == [1, 2, 4, 8]
  {
    assert Pow2(1) == 2 && Pow2(2) == 4 && Pow2(3) == 8;
  }

  /** The whole constructor: resolve the parameters, build the string, connect. */
  method Open(args: Settings, env: Env, passwdName: Option<string>, failures: seq<string>, initError: Option<string>)
    returns (c: Connection)
    ensures c.Connected? <==> |failures| < MaxRetries && initError.None?
    ensures c.Connected? ==> c.connString == ConnectionString(Resolve(args, env, passwdName))
    ensures c.ConnectFailed? ==> |c.message| >= |FailurePrefix| && c.message[..|FailurePrefix|] == FailurePrefix
  {
    var settings := Resolve(args, env, passwdName);
    c := Connect(ConnectionString(settings), failures, initError);
  }
}
