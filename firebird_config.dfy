/**
 * The command-line configuration loader of the server (src/config/firebird.config.ts):
 * `parseArguments` walks the `--key value` pairs of the command line into a partial
 * configuration, and `getFirebirdConfig` picks the schema fields out of it, forces the two
 * defaults and validates the result.
 */
module FirebirdConfig {
  import opened Wrappers
  import opened JsText

  /** A value stored in the partial configuration: a raw string, the result of `parseInt`
      (`None` is NaN), or a boolean. */
  datatype Value = Str(text: string) | Num(number: Option<int>) | Bool(flag: bool)

  /** The object `parseArguments` builds; a JavaScript object accepts any key, not only the
      schema's. */
  type PartialConfig = map<string, Value>

  /** A configuration the schema accepted. */
  datatype Config = Config(
    host: string,
    port: int,
    database: string,
    user: string,
    password: string,
    lowercaseKeys: bool,
    role: Option<string>,
    pageSize: int)

  const InvalidConfiguration := "Invalid Firebird configuration:"
  const DefaultPageSize := 4096

  /** The five keys the schema requires. */
  const RequiredKeys: set<string> := {"host", "port", "database", "user", "password"}

  /** The keys whose values `getFirebirdConfig` reads from the partial configuration. */
  const SchemaKeys: set<string> := RequiredKeys + {"role"}

  /** `process.argv.slice(2)`: the arguments after the runtime and the script. */
  function UserArgs(argv: seq<string>): (args: seq<string>)
    ensures |argv| >= 2 ==> args == argv[2..]
    ensures |argv| < 2 ==> args == []
  {
    if |argv| <= 2 then [] else argv[2..]
  }

  predicate IsFlag(arg: string) {
    StartsWith(arg, "--")
  }

  /** `arg.slice(2)`: the key named by a flag. */
  function FlagKey(arg: string): string
    requires IsFlag(arg)
  {
    arg[2..]
  }

  /** `value && !value.startsWith('--')`: the argument after a flag is taken as its value. */
  predicate IsUsableValue(value: string) {
    value != "" && !StartsWith(value, "--")
  }

  /** What is stored for `key`: `parseInt` for `port` and `pageSize`, a comparison with
      `"true"` for `lowercase_keys`, the raw text otherwise. */
  function Convert(key: string, value: string): Value {
    if key == "port" then Num(ParseInt(value))
    else if key == "lowercase_keys" then Bool(value == "true")
    else if key == "pageSize" then Num(ParseInt(value))
    else Str(value)
  }

  /** The kind of value stored depends on the key alone: a number for `port` and `pageSize`, a
      boolean for `lowercase_keys`, the text itself for every other key. */
  lemma ConvertByKey(key: string, value: string)
    ensures Convert(key, value).Num? <==> key == "port" || key == "pageSize"
    ensures Convert(key, value).Num? ==> Convert(key, value).number == ParseInt(value)
    ensures Convert(key, value).Bool? <==> key == "lowercase_keys"
    ensures Convert(key, value).Bool? ==> (Convert(key, value).flag <==> value == "true")
    ensures Convert(key, value).Str? ==> Convert(key, value).text == value
  {
  }

  /** The walk stores a value for `key` at position `i`: a flag naming `key` followed by a
      usable value. */
  predicate StoresAt(args: seq<string>, i: int, key: string) {
    && 0 <= i && i + 1 < |args|
    && IsFlag(args[i]) && FlagKey(args[i]) == key
    && IsUsableValue(args[i + 1])
  }

  /** `i` is the last position at which the walk stores a value for `key`. */
  predicate LastStoreAt(args: seq<string>, i: int, key: string) {
    StoresAt(args, i, key) && forall j :: i < j < |args| ==> !StoresAt(args, j, key)
  }

  /**
   * The partial configuration the walk over `args` produces, stated recursively: a flag with a
   * usable value stores it and skips past it, anything else is passed over; a later pair
   * overrides an earlier one (`+` on maps keeps the right operand's entries).
   */
  function Parse(args: seq<string>): PartialConfig
    decreases |args|
  {
    if |args| == 0 then map[]
    else if |args| >= 2 && IsFlag(args[0]) && IsUsableValue(args[1]) then
      map[FlagKey(args[0]) := Convert(FlagKey(args[0]), args[1])] + Parse(args[2..])
    else Parse(args[1..])
  }

  /** `parseArguments`: walks the arguments with an index that also steps over consumed values. */
  method ParseArguments(argv: seq<string>) returns (config: PartialConfig)
    ensures config == Parse(UserArgs(argv))
  {
    var args := UserArgs(argv);
    config := map[];
    var i := 0;
    while i < |args|
      invariant 0 <= i <= |args|
      invariant Parse(args) == config + Parse(args[i..])
    {
      var arg := args[i];
      if IsFlag(arg) {
        var key := arg[2..];
        if i + 1 < |args| && IsUsableValue(args[i + 1]) {
          var value := args[i + 1];
          assert args[i..][2..] == args[i + 2..];
          ghost var later := Parse(args[i + 2..]);
          assert config + (map[key := Convert(key, value)] + later) == config[key := Convert(key, value)] + later;
          if key == "port" {
            config := config[key := Num(ParseInt(value))];
          } else if key == "lowercase_keys" {
            config := config[key := Bool(value == "true")];
          } else if key == "pageSize" {
            config := config[key := Num(ParseInt(value))];
          } else {
            config := config[key := Str(value)];
          }
          i := i + 1;
        } else {
          assert args[i..][1..] == args[i + 1..];
        }
      } else {
        assert args[i..][1..] == args[i + 1..];
      }
      i := i + 1;
    }
    assert args[i..] == [];
  }

  /** Positions shift by the number of arguments the walk moves past. */
  lemma StoresAtShift(args: seq<string>, d: nat, i: int, key: string)
    requires d <= |args| && 0 <= i
    ensures StoresAt(args[d..], i, key) <==> StoresAt(args, i + d, key)
  {
    if i + 1 < |args| - d {
      assert args[d..][i] == args[i + d] && args[d..][i + 1] == args[i + d + 1];
    }
  }

  /**
   * A key is present in the partial configuration exactly when some flag naming it is followed by
   * a usable value. A consumed value never starts with `--`, so stepping over it never hides a flag.
   */
  lemma {:induction false} ParseKeys(args: seq<string>, key: string)
    ensures key in Parse(args) <==> exists i :: StoresAt(args, i, key)
    decreases |args|
  {
    if |args| == 0 {
    } else {
      var d := if |args| >= 2 && IsFlag(args[0]) && IsUsableValue(args[1]) then 2 else 1;
      var head := d == 2 && FlagKey(args[0]) == key;
      ParseKeys(args[d..], key);
      assert key in Parse(args) <==> head || key in Parse(args[d..]);
      assert d == 2 ==> !StoresAt(args, 1, key);
      assert head <==> StoresAt(args, 0, key);
      if key in Parse(args[d..]) {
        var j :| StoresAt(args[d..], j, key);
        StoresAtShift(args, d, j, key);
      }
      if i :| StoresAt(args, i, key) && i >= d {
        StoresAtShift(args, d, i - d, key);
      }
    }
  }

  /** Every stored value is the conversion of the argument after a well-formed flag for its key. */
  lemma ParseConverts(args: seq<string>, key: string)
    requires key in Parse(args)
    ensures exists i :: StoresAt(args, i, key) && Parse(args)[key] == Convert(key, args[i + 1])
  {
    ParseKeys(args, key);
    var i :| StoresAt(args, i, key);
    LastStoreExists(args, i, key);
    var j :| LastStoreAt(args, j, key);
    ParseLastWins(args, j, key);
    assert StoresAt(args, j, key) && Parse(args)[key] == Convert(key, args[j + 1]);
  }

  /** When a key is given several times, the value after its last well-formed flag wins. */
  lemma {:induction false} ParseLastWins(args: seq<string>, i: int, key: string)
    requires LastStoreAt(args, i, key)
    ensures key in Parse(args) && Parse(args)[key] == Convert(key, args[i + 1])
    decreases |args|
  {
    if |args| >= 2 && IsFlag(args[0]) && IsUsableValue(args[1]) {
      assert !StoresAt(args, 1, key);
      if i == 0 {
        ParseKeys(args[2..], key);
        if key in Parse(args[2..]) {
          var j :| StoresAt(args[2..], j, key);
          StoresAtShift(args, 2, j, key);
        }
      } else {
        forall j | i - 2 < j < |args| - 2
          ensures !StoresAt(args[2..], j, key)
        {
          StoresAtShift(args, 2, j, key);
        }
        StoresAtShift(args, 2, i - 2, key);
        ParseLastWins(args[2..], i - 2, key);
      }
    } else {
      assert i != 0;
      forall j | i - 1 < j < |args| - 1
        ensures !StoresAt(args[1..], j, key)
      {
        StoresAtShift(args, 1, j, key);
      }
      StoresAtShift(args, 1, i - 1, key);
      ParseLastWins(args[1..], i - 1, key);
    }
  }

  /** An argument that is not a flag, such as the transport selector `sse`, is passed over. */
  lemma ParseSkipsNonFlag(arg: string, rest: seq<string>)
    requires !IsFlag(arg)
    ensures Parse([arg] + rest) == Parse(rest)
  {
    assert ([arg] + rest)[1..] == rest;
  }

  /** A flag whose next argument is absent, empty or itself a flag stores nothing, and the next
      argument is then walked on its own. */
  lemma ParseSkipsFlagWithoutValue(flag: string, rest: seq<string>)
    requires IsFlag(flag)
    requires rest == [] || !IsUsableValue(rest[0])
    ensures Parse([flag] + rest) == Parse(rest)
  {
    assert ([flag] + rest)[1..] == rest;
  }

  /** A flag with a usable value stores that value, converted, unless a later pair overrides it. */
  lemma ParseStoresFlagValue(flag: string, value: string, rest: seq<string>)
    requires IsFlag(flag) && IsUsableValue(value)
    ensures Parse([flag, value] + rest)
         == map[FlagKey(flag) := Convert(FlagKey(flag), value)] + Parse(rest)
  {
    assert ([flag, value] + rest)[2..] == rest;
  }

  /** `key` holds a string. */
  predicate HasText(partial: PartialConfig, key: string) {
    key in partial && partial[key].Str?
  }

  /** `key` holds a number that is not NaN. */
  predicate HasNumber(partial: PartialConfig, key: string) {
    key in partial && partial[key].Num? && partial[key].number.Some?
  }

  /** The schema accepts the fields `getFirebirdConfig` hands it. */
  predicate Acceptable(partial: PartialConfig) {
    && HasText(partial, "host")
    && HasNumber(partial, "port")
    && HasText(partial, "database")
    && HasText(partial, "user")
    && HasText(partial, "password")
    && ("role" !in partial || partial["role"].Str?)
  }

  /**
   * The body of `getFirebirdConfig` after `parseArguments`: build the object literal from the
   * schema keys with `lowercase_keys: false` and `pageSize: 4096`, and run the schema over it;
   * a schema failure becomes the fixed error message.
   */
  function Validate(partial: PartialConfig): (r: Result<Config>)
    ensures r.Ok? <==> Acceptable(partial)
    ensures r.Err? ==> r.message == InvalidConfiguration
    ensures r.Ok? ==> !r.value.lowercaseKeys && r.value.pageSize == DefaultPageSize
    ensures r.Ok? ==> && r.value.host == partial["host"].text
                      && Some(r.value.port) == partial["port"].number
                      && r.value.database == partial["database"].text
                      && r.value.user == partial["user"].text
                      && r.value.password == partial["password"].text
                      && (r.value.role.Some? <==> "role" in partial)
                      && ("role" in partial ==> r.value.role.value == partial["role"].text)
  {
    if Acceptable(partial) then
      Ok(Config(
        host := partial["host"].text,
        port := partial["port"].number.value,
        database := partial["database"].text,
        user := partial["user"].text,
        password := partial["password"].text,
        lowercaseKeys := false,
        role := if "role" in partial then Some(partial["role"].text) else None,
        pageSize := DefaultPageSize))
    else Err(InvalidConfiguration)
  }

  /** Only the six schema keys are read: keys such as `--foo`, `lowercase_keys` and `pageSize`
      given on the command line never reach the configuration. */
  lemma ValidateReadsOnlySchemaKeys(p: PartialConfig, q: PartialConfig)
    requires forall k :: k in SchemaKeys ==> (k in p <==> k in q)
    requires forall k :: k in SchemaKeys && k in p ==> p[k] == q[k]
    ensures Validate(p) == Validate(q)
  {
    assert "role" in SchemaKeys && "host" in SchemaKeys && "port" in SchemaKeys;
    assert "database" in SchemaKeys && "user" in SchemaKeys && "password" in SchemaKeys;
  }

  /** The schema fails whenever a required key is missing, whatever else is present. */
  lemma ValidateNeedsRequiredKey(partial: PartialConfig, key: string)
    requires key in RequiredKeys && key !in partial
    ensures Validate(partial) == Err(InvalidConfiguration)
  {
    assert !Acceptable(partial);
  }

  /** `getFirebirdConfig`: parse the command line, then validate. */
  method GetFirebirdConfig(argv: seq<string>) returns (r: Result<Config>)
    ensures r == Validate(Parse(UserArgs(argv)))
    ensures r.Ok? ==> !r.value.lowercaseKeys && r.value.pageSize == DefaultPageSize
    ensures r.Err? ==> r.message == InvalidConfiguration
  {
    var argsConfig := ParseArguments(argv);
    r := Validate(argsConfig);
  }

  /** Without a well-formed flag for a required key, loading fails with the fixed message. */
  lemma ConfigFailsWithoutRequiredFlag(args: seq<string>, key: string)
    requires key in RequiredKeys
    requires forall i :: 0 <= i < |args| ==> !StoresAt(args, i, key)
    ensures Validate(Parse(args)) == Err(InvalidConfiguration)
  {
    ParseKeys(args, key);
    ValidateNeedsRequiredKey(Parse(args), key);
  }

  /** A port whose last value is not a number (NaN) makes loading fail. */
  lemma ConfigFailsOnUnparsablePort(args: seq<string>, i: int)
    requires LastStoreAt(args, i, "port") && ParseInt(args[i + 1]).None?
    ensures Validate(Parse(args)) == Err(InvalidConfiguration)
  {
    ParseLastWins(args, i, "port");
  }

  /**
   * With every required key given and a numeric port, loading succeeds with the value after the
   * last well-formed flag of each key, no role unless one is given, and the two forced defaults,
   * whatever `--lowercase_keys` and `--pageSize` said.
   */
  lemma ConfigFromLastFlags(args: seq<string>, h: int, p: int, d: int, u: int, w: int)
    requires LastStoreAt(args, h, "host") && LastStoreAt(args, p, "port")
    requires LastStoreAt(args, d, "database") && LastStoreAt(args, u, "user")
    requires LastStoreAt(args, w, "password")
    requires ParseInt(args[p + 1]).Some?
    ensures Validate(Parse(args)).Ok?
    ensures Validate(Parse(args)).value
         == Config(args[h + 1], ParseInt(args[p + 1]).value, args[d + 1], args[u + 1], args[w + 1],
                   false, Validate(Parse(args)).value.role, DefaultPageSize)
    ensures Validate(Parse(args)).value.role.Some? <==> exists i :: StoresAt(args, i, "role")
  {
    ParseLastWins(args, h, "host");
    ParseLastWins(args, p, "port");
    ParseLastWins(args, d, "database");
    ParseLastWins(args, u, "user");
    ParseLastWins(args, w, "password");
    ParseKeys(args, "role");
    if "role" in Parse(args) {
      ParseConverts(args, "role");
    }
  }

  /** The role, when given, is the value after its last well-formed flag. */
  lemma ConfigRoleFromLastFlag(args: seq<string>, i: int)
    requires LastStoreAt(args, i, "role") && Validate(Parse(args)).Ok?
    ensures Validate(Parse(args)).value.role == Some(args[i + 1])
  {
    ParseLastWins(args, i, "role");
  }

  /** A key given at least once has a last well-formed flag. */
  lemma LastStoreExists(args: seq<string>, i: int, key: string)
    requires StoresAt(args, i, key)
    ensures exists j :: LastStoreAt(args, j, key)
    decreases |args| - i
  {
    if j :| i < j < |args| && StoresAt(args, j, key) {
      LastStoreExists(args, j, key);
    } else {
      assert LastStoreAt(args, i, key);
    }
  }

  /** Some well-formed flag gives `key` a value. */
  ghost predicate Given(args: seq<string>, key: string) {
    exists i :: StoresAt(args, i, key)
  }

  /** The last value given for `port` is a number. */
  ghost predicate PortParses(args: seq<string>) {
    exists p :: LastStoreAt(args, p, "port") && ParseInt(args[p + 1]).Some?
  }

  lemma AcceptedHasAllKeys(args: seq<string>)
    requires Validate(Parse(args)).Ok?
    ensures Given(args, "host") && Given(args, "database") && Given(args, "user")
    ensures Given(args, "password") && PortParses(args)
  {
    ParseKeys(args, "host");
    ParseKeys(args, "database");
    ParseKeys(args, "user");
    ParseKeys(args, "password");
    ParseKeys(args, "port");
    var i :| StoresAt(args, i, "port");
    LastStoreExists(args, i, "port");
    var p :| LastStoreAt(args, p, "port");
    ParseLastWins(args, p, "port");
  }

  /**
   * Loading succeeds exactly when `host`, `database`, `user` and `password` are each given by
   * some well-formed flag and the last value given for `port` is a number; `role` is optional.
   */
  lemma ConfigAcceptedIff(args: seq<string>)
    ensures Validate(Parse(args)).Ok?
        <==> Given(args, "host") && Given(args, "database") && Given(args, "user")
             && Given(args, "password") && PortParses(args)
  {
    if Validate(Parse(args)).Ok? {
      AcceptedHasAllKeys(args);
    }
    if Given(args, "host") && Given(args, "database") && Given(args, "user")
       && Given(args, "password") && PortParses(args) {
      var h0 :| StoresAt(args, h0, "host");
      var d0 :| StoresAt(args, d0, "database");
      var u0 :| StoresAt(args, u0, "user");
      var w0 :| StoresAt(args, w0, "password");
      LastStoreExists(args, h0, "host");
      LastStoreExists(args, d0, "database");
      LastStoreExists(args, u0, "user");
      LastStoreExists(args, w0, "password");
      var h :| LastStoreAt(args, h, "host");
      var d :| LastStoreAt(args, d, "database");
      var u :| LastStoreAt(args, u, "user");
      var w :| LastStoreAt(args, w, "password");
      var p :| LastStoreAt(args, p, "port") && ParseInt(args[p + 1]).Some?;
      ConfigFromLastFlags(args, h, p, d, u, w);
    }
  }
}
