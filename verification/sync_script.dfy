/** The helpers of src/script/sync-ddb-to-localstack.js, the one-shot copy of
    a DynamoDB table into a local emulator: the command-line parser, the
    configuration lookup, `chunk` and the `batchWriteAll` retry loop. The
    process arguments and environment are inputs; so are `parseInt`,
    `path.resolve` with the working directory, and the service's answers. */
module SyncScript {
  import opened Wrappers
  import opened JsStrings
  import opened CliArgs
  import opened BatchRetry

  // ---------------------------------------------------------------------------
  // parseArgs

  /** The (key, value) assignments `parseArgs` makes, in order, reading from
      token `i`: a token that is not an option is passed over; `--k=v` assigns
      `v`; a bare `--k` takes the next token as its value when that token can
      be one, and `"true"` otherwise. */
  function Options(argv: seq<string>, i: nat): seq<(string, string)>
    requires i <= |argv|
    decreases |argv| - i
  {
    if i == |argv| then []
    else if !IsOption(argv[i]) then Options(argv, i + 1)
    else if '=' in argv[i] then [(Key(argv[i]), InlineValue(argv[i]))] + Options(argv, i + 1)
    else if TakesValue(argv, i + 1) then [(Key(argv[i]), argv[i + 1])] + Options(argv, i + 2)
    else [(Key(argv[i]), "true")] + Options(argv, i + 1)
  }

  /** An option token's own assignment comes first, then those after it and
      after the value token it took. */
  lemma OptionStep(argv: seq<string>, i: nat)
    requires i < |argv| && IsOption(argv[i])
    ensures Options(argv, i) ==
      [(Key(argv[i]), ValueAt(argv, i))] + Options(argv, if '=' !in argv[i] && TakesValue(argv, i + 1) then i + 2 else i + 1)
  {
  }

  /** What `parseArgs(argv)` returns. */
  function Parsed(argv: seq<string>): map<string, string> {
    Assign(map[], Options(argv, 0))
  }

  /** `parseArgs`. */
  method ParseArgs(argv: seq<string>) returns (out: map<string, string>)
    ensures out == Parsed(argv)
  {
    out := map[];
    var i := 0;
    while i < |argv|
      invariant 0 <= i <= |argv|
      invariant Assign(out, Options(argv, i)) == Parsed(argv)
      decreases |argv| - i
    {
      var token := argv[i];
      if !IsOption(token) {
        i := i + 1;
        continue;
      }
      ghost var start := i;
      var eqIndex := IndexOf(token, '=');
      var key := if eqIndex > -1 then token[2..eqIndex] else token[2..];
      SplitOption(token);
      OptionStep(argv, start);
      var value;
      if eqIndex > -1 {
        value := token[eqIndex + 1..];
      } else if i + 1 < |argv| && argv[i + 1] != "" && !IsOption(argv[i + 1]) {
        i := i + 1;
        value := argv[i];
      } else {
        value := "true";
      }
      assert key == Key(token) && value == ValueAt(argv, start);
      AssignCons(out, (key, value), Options(argv, i + 1));
      out := out[key := value];
      i := i + 1;
    }
  }

  /** The indices of the option tokens from `i` on. */
  function Positions(argv: seq<string>, i: nat): seq<nat>
    requires i <= |argv|
    decreases |argv| - i
  {
    if i == |argv| then []
    else (if IsOption(argv[i]) then [i] else []) + Positions(argv, i + 1)
  }

  /** The value the option token at `j` gets. */
  function ValueAt(argv: seq<string>, j: nat): string
    requires j < |argv| && IsOption(argv[j])
  {
    if '=' in argv[j] then InlineValue(argv[j])
    else if TakesValue(argv, j + 1) then argv[j + 1]
    else "true"
  }

  /** The positions are exactly the option tokens from `i` on. */
  lemma {:induction false} PositionsMembers(argv: seq<string>, i: nat)
    requires i <= |argv|
    ensures forall k :: 0 <= k < |Positions(argv, i)| ==>
      i <= Positions(argv, i)[k] < |argv| && IsOption(argv[Positions(argv, i)[k]])
    ensures forall j :: i <= j < |argv| && IsOption(argv[j]) ==> j in Positions(argv, i)
    decreases |argv| - i
  {
    if i < |argv| {
      PositionsMembers(argv, i + 1);
      var rest := Positions(argv, i + 1);
      var p := Positions(argv, i);
      if IsOption(argv[i]) {
        assert p == [i] + rest;
        forall k | 0 <= k < |p| ensures i <= p[k] < |argv| && IsOption(argv[p[k]]) {
          if k > 0 {
            assert p[k] == rest[k - 1];
          }
        }
        forall j | i <= j < |argv| && IsOption(argv[j]) ensures j in p {
          if j > i {
            assert j in rest;
          }
        }
      } else {
        assert p == rest;
      }
    }
  }

  /** Every option token makes exactly one assignment, in order, of its own
      key; no other token makes one. A token taken as a flag's value is never
      an option, so no option is lost to the flag before it. */
  lemma {:induction false} OptionsByPosition(argv: seq<string>, i: nat)
    requires i <= |argv|
    ensures var o := Options(argv, i); var p := Positions(argv, i);
      && |o| == |p|
      && forall k :: 0 <= k < |o| ==>
           p[k] < |argv| && IsOption(argv[p[k]]) && o[k] == (Key(argv[p[k]]), ValueAt(argv, p[k]))
    decreases |argv| - i
  {
    if i < |argv| {
      var o := Options(argv, i);
      var p := Positions(argv, i);
      if !IsOption(argv[i]) {
        OptionsByPosition(argv, i + 1);
        assert o == Options(argv, i + 1) && p == Positions(argv, i + 1);
      } else {
        var next := if '=' !in argv[i] && TakesValue(argv, i + 1) then i + 2 else i + 1;
        OptionsByPosition(argv, next);
        var o' := Options(argv, next);
        var p' := Positions(argv, next);
        assert p == [i] + p' by {
          if next == i + 2 {
            assert Positions(argv, i + 1) == p';
          }
        }
        assert o == [(Key(argv[i]), ValueAt(argv, i))] + o';
        forall k | 0 <= k < |o|
          ensures p[k] < |argv| && IsOption(argv[p[k]]) && o[k] == (Key(argv[p[k]]), ValueAt(argv, p[k]))
        {
          if k > 0 {
            assert o[k] == o'[k - 1] && p[k] == p'[k - 1];
          }
        }
      }
    }
  }

  /** Every parsed key is the key of some option token. */
  lemma ParsedKeyFromToken(argv: seq<string>, x: string)
    requires x in Parsed(argv)
    ensures exists j :: 0 <= j < |argv| && IsOption(argv[j]) && Key(argv[j]) == x
  {
    var o := Options(argv, 0);
    var p := Positions(argv, 0);
    OptionsByPosition(argv, 0);
    AssignKeys(map[], o);
    assert x in set k | 0 <= k < |o| :: o[k].0;
    var k :| 0 <= k < |o| && o[k].0 == x;
    assert Key(argv[p[k]]) == x;
  }

  /** The key of every option token is parsed. */
  lemma TokenKeyParsed(argv: seq<string>, j: nat)
    requires j < |argv| && IsOption(argv[j])
    ensures Key(argv[j]) in Parsed(argv)
  {
    var o := Options(argv, 0);
    var p := Positions(argv, 0);
    OptionsByPosition(argv, 0);
    PositionsMembers(argv, 0);
    AssignKeys(map[], o);
    assert j in p;
    var k :| 0 <= k < |p| && p[k] == j;
    assert o[k].0 == Key(argv[j]);
    assert Key(argv[j]) in set k | 0 <= k < |o| :: o[k].0;
  }

  /** The value of a key is the one its last option token gives: the text
      after `=`, the following token, or `"true"`. */
  lemma ParsedLastWins(argv: seq<string>, j: nat)
    requires j < |argv| && IsOption(argv[j])
    requires forall l :: j < l < |argv| && IsOption(argv[l]) ==> Key(argv[l]) != Key(argv[j])
    ensures Key(argv[j]) in Parsed(argv)
    ensures Parsed(argv)[Key(argv[j])] == ValueAt(argv, j)
  {
    OptionsLastWins(argv, 0, map[], j);
  }

  /** Reading on from token `i`, with `out` assigned so far, the last option
      token `j` with its key decides the key's value: an option token is never
      taken as a flag's value, so it is always reached. */
  lemma {:induction false} OptionsLastWins(argv: seq<string>, i: nat, out: map<string, string>, j: nat)
    requires i <= j < |argv| && IsOption(argv[j])
    requires forall l :: j < l < |argv| && IsOption(argv[l]) ==> Key(argv[l]) != Key(argv[j])
    ensures Key(argv[j]) in Assign(out, Options(argv, i))
    ensures Assign(out, Options(argv, i))[Key(argv[j])] == ValueAt(argv, j)
    decreases j - i
  {
    var next := if IsOption(argv[i]) && '=' !in argv[i] && TakesValue(argv, i + 1) then i + 2 else i + 1;
    if i == j {
      var k := Key(argv[j]);
      var rest := Options(argv, next);
      assert Options(argv, j) == [(k, ValueAt(argv, j))] + rest;
      AssignCons(out, (k, ValueAt(argv, j)), rest);
      OptionsByPosition(argv, next);
      PositionsMembers(argv, next);
      var p := Positions(argv, next);
      forall l | 0 <= l < |rest| ensures rest[l].0 != k {
        assert rest[l].0 == Key(argv[p[l]]) && j < p[l];
      }
      AssignUntouched(out[k := ValueAt(argv, j)], rest, k);
    } else if !IsOption(argv[i]) {
      OptionsLastWins(argv, i + 1, out, j);
    } else {
      var option := (Key(argv[i]), ValueAt(argv, i));
      assert Options(argv, i) == [option] + Options(argv, next);
      AssignCons(out, option, Options(argv, next));
      OptionsLastWins(argv, next, out[option.0 := option.1], j);
    }
  }

  // ---------------------------------------------------------------------------
  // readConfig

  /** An environment variable that is set and not empty. */
  predicate EnvSet(env: map<string, string>, name: string) {
    name in env && env[name] != ""
  }

  /** `get(...keys)`: for each key in turn, the command-line value, else the
      environment variable named by the upper-cased key, else that name with
      `-` replaced by `_`; an empty environment value counts as unset. */
  function Get(args: map<string, string>, env: map<string, string>, keys: seq<string>): Option<string>
    decreases |keys|
  {
    if keys == [] then None
    else
      var key := keys[0];
      if key in args then Some(args[key])
      else if EnvSet(env, ToUpper(key)) then Some(env[ToUpper(key)])
      else if EnvSet(env, EnvName(key)) then Some(env[EnvName(key)])
      else Get(args, env, keys[1..])
  }

  /** The lookup finds nothing exactly when no key is on the command line or
      in the environment under either name; what it finds comes from one of
      those three places for one of the keys. */
  lemma {:induction false} GetSpec(args: map<string, string>, env: map<string, string>, keys: seq<string>)
    ensures Get(args, env, keys).None? <==>
      forall k :: k in keys ==> k !in args && !EnvSet(env, ToUpper(k)) && !EnvSet(env, EnvName(k))
    ensures Get(args, env, keys).Some? ==>
      exists k :: k in keys &&
        ((k in args && Get(args, env, keys).value == args[k]) ||
         (EnvSet(env, ToUpper(k)) && Get(args, env, keys).value == env[ToUpper(k)]) ||
         (EnvSet(env, EnvName(k)) && Get(args, env, keys).value == env[EnvName(k)]))
    decreases |keys|
  {
    if keys != [] {
      GetSpec(args, env, keys[1..]);
      assert forall k :: k in keys ==> k == keys[0] || k in keys[1..];
    }
  }

  /** `v || fallback` on a looked-up string. */
  function Or(v: Option<string>, fallback: string): string {
    if v.Some? && v.value != "" then v.value else fallback
  }

  /** The resume file used when none is named. */
  const DefaultResumeFile := ".ddb-sync-resume.json"

  /** The configuration `readConfig` returns; a number `parseInt` cannot read is
      `None` (NaN). */
  datatype SyncConfig = SyncConfig(
    tableName: string, srcRegion: string, dstRegion: string, dstEndpoint: string,
    pageLimit: Option<int>, rateSleepMs: Option<int>, projection: string, maxRetries: Option<int>,
    dstAccessKey: string, dstSecretKey: string, resumeFile: Option<string>)

  /** The resume file: none for `"off"`, otherwise the named or default file
      resolved against the working directory. */
  function ResumeFile(raw: Option<string>, resolve: (string, string) -> string, cwd: string): (r: Option<string>)
    ensures r.None? <==> raw == Some("off")
    ensures raw == None ==> r == Some(resolve(cwd, DefaultResumeFile))
  {
    if raw == Some("off") then None
    else Some(resolve(cwd, Or(raw, DefaultResumeFile)))
  }

  /** `readConfig`: an error (the process exits) when no table name is given. */
  function ReadConfig(args: map<string, string>, env: map<string, string>, parseInt: string -> Option<int>,
                      resolve: (string, string) -> string, cwd: string): (r: Result<SyncConfig, string>)
    ensures r.Err? <==> Or(Get(args, env, ["table", "table-name", "TABLE_NAME"]), "") == ""
    ensures r.Ok? ==>
      r.value.tableName != "" && Get(args, env, ["table", "table-name", "TABLE_NAME"]) == Some(r.value.tableName)
    ensures r.Ok? ==> (r.value.resumeFile.None? <==> Get(args, env, ["resume-file", "resume", "RESUME_FILE"]) == Some("off"))
  {
    var tableName := Get(args, env, ["table", "table-name", "TABLE_NAME"]);
    if Or(tableName, "") == "" then Err("table name missing")
    else Ok(SyncConfig(
      tableName.value,
      Or(Get(args, env, ["src-region", "src", "SRC_REGION"]), "us-east-1"),
      Or(Get(args, env, ["dst-region", "DST_REGION"]), "us-east-1"),
      Or(Get(args, env, ["localstack-endpoint", "endpoint", "LOCALSTACK_ENDPOINT"]), "http://localhost:4566"),
      parseInt(Or(Get(args, env, ["page-limit", "PAGE_LIMIT"]), "1000")),
      parseInt(Or(Get(args, env, ["rate-sleep", "RATE_SLEEP_MS"]), "200")),
      Or(Get(args, env, ["projection", "PROJECTION"]), ""),
      parseInt(Or(Get(args, env, ["max-retries", "MAX_RETRIES"]), "8")),
      Or(Get(args, env, ["dst-access-key", "DST_ACCESS_KEY"]), "test"),
      Or(Get(args, env, ["dst-secret-key", "DST_SECRET_KEY"]), "test"),
      ResumeFile(Get(args, env, ["resume-file", "resume", "RESUME_FILE"]), resolve, cwd)))
  }

  /** With only `--table` given and an empty environment, every other setting
      takes its default. */
  lemma OnlyTableGiven(table: string, parseInt: string -> Option<int>, resolve: (string, string) -> string, cwd: string)
    requires table != ""
    ensures ReadConfig(map["table" := table], map[], parseInt, resolve, cwd) == Ok(SyncConfig(
      table, "us-east-1", "us-east-1", "http://localhost:4566",
      parseInt("1000"), parseInt("200"), "", parseInt("8"), "test", "test",
      Some(resolve(cwd, DefaultResumeFile))))
  {
    var args := map["table" := table];
    var env: map<string, string> := map[];
    assert Get(args, env, ["table", "table-name", "TABLE_NAME"]) == Some(table);
    NothingGiven(args, env, ["src-region", "src", "SRC_REGION"]);
    NothingGiven(args, env, ["dst-region", "DST_REGION"]);
    NothingGiven(args, env, ["localstack-endpoint", "endpoint", "LOCALSTACK_ENDPOINT"]);
    NothingGiven(args, env, ["page-limit", "PAGE_LIMIT"]);
    NothingGiven(args, env, ["rate-sleep", "RATE_SLEEP_MS"]);
    NothingGiven(args, env, ["projection", "PROJECTION"]);
    NothingGiven(args, env, ["max-retries", "MAX_RETRIES"]);
    NothingGiven(args, env, ["dst-access-key", "DST_ACCESS_KEY"]);
    NothingGiven(args, env, ["dst-secret-key", "DST_SECRET_KEY"]);
    NothingGiven(args, env, ["resume-file", "resume", "RESUME_FILE"]);
    assert ReadConfig(args, env, parseInt, resolve, cwd).Ok?;
  }

  /** A lookup none of whose keys is on the command line, with an empty
      environment, finds nothing. */
  lemma {:induction false} NothingGiven(args: map<string, string>, env: map<string, string>, keys: seq<string>)
    requires env == map[]
    requires forall k :: k in keys ==> k !in args
    ensures Get(args, env, keys) == None
    decreases |keys|
  {
    if keys != [] {
      assert keys[0] in keys;
      NothingGiven(args, env, keys[1..]);
    }
  }

  // ---------------------------------------------------------------------------
  // chunk and batchWriteAll

  /** `chunk(arr, size)`: the pieces `arr.slice(i, i + size)` for i = 0, size,
      2·size, … A size of 0 or less never ends the loop, so it is excluded. */
  method Chunk<T>(arr: seq<T>, size: nat) returns (out: seq<seq<T>>)
    requires size > 0
    ensures out == Chunks(arr, size)
    ensures Concat(out) == arr
    ensures forall k :: 0 <= k < |out| ==> 0 < |out[k]| <= size && (k < |out| - 1 ==> |out[k]| == size)
  {
    out := [];
    var i := 0;
    while i < |arr|
      invariant 0 <= i
      invariant out + Chunks(arr[Min(i, |arr|)..], size) == Chunks(arr, size)
      decreases |arr| - i
    {
      var rest := arr[i..];
      if |rest| <= size {
        assert Chunks(rest, size) == [rest];
        out := out + [arr[i..]];
      } else {
        assert Chunks(rest, size) == [rest[..size]] + Chunks(rest[size..], size);
        assert rest[..size] == arr[i..i + size] && rest[size..] == arr[i + size..];
        out := out + [arr[i..i + size]];
      }
      i := i + size;
    }
    ChunksSpec(arr, size);
  }

  function Min(a: int, b: int): int {
    if a < b then a else b
  }

  /** The `while (true)` loop of `batchWriteAll` for group `k`: send, count
      what went through, and retry the unprocessed items after a backoff until
      none are left or the attempt number exceeds `maxRetries`. The result is
      the new count, or the error (the thrown exception) with the items left;
      `waits` holds the backoff before each retry. */
  method WriteGroup<T>(send: Send<T>, k: nat, group: seq<T>, maxRetries: int, written: int) returns (r: Result<int, nat>, waits: seq<nat>)
    ensures r == GroupRun(send, k, 0, group, maxRetries, written)
    ensures waits == GroupWaits(send, k, 0, group, maxRetries)
  {
    var requestItems := group;
    var attempt := 0;
    var count := written;
    waits := [];
    while true
      invariant GroupRun(send, k, attempt, requestItems, maxRetries, count) == GroupRun(send, k, 0, group, maxRetries, written)
      invariant waits + GroupWaits(send, k, attempt, requestItems, maxRetries) == GroupWaits(send, k, 0, group, maxRetries)
      decreases if attempt <= maxRetries then maxRetries - attempt + 1 else 0
    {
      var unprocessed := send(k, attempt, requestItems);
      GroupRunStep(send, k, attempt, requestItems, maxRetries, count);
      WaitsAfterSend(send, k, attempt, requestItems, maxRetries, waits, GroupWaits(send, k, 0, group, maxRetries));
      count := count + |requestItems| - |unprocessed|;
      if |unprocessed| == 0 {
        return Ok(count), waits;
      }
      attempt := attempt + 1;
      if attempt > maxRetries {
        return Err(|unprocessed|), waits;
      }
      waits := waits + [Backoff(attempt)];
      requestItems := unprocessed;
    }
  }

  /** `batchWriteAll(tableName, items, { maxRetries })`: the items go out in
      groups of 25 and each group's unprocessed items are sent again until none
      are left; the result is the count written, or an error (the thrown
      exception) carrying the items still unprocessed when the retries ran out.
      `waits` holds the backoff before each retry: at most `maxRetries` per
      group, and a call that gives up ends with the full `maxRetries` backoffs
      of the group that ran out. The random jitter added to each backoff and
      the sleep itself are not modelled. */
  method BatchWriteAll<T>(items: seq<T>, send: Send<T>, maxRetries: int) returns (r: Result<int, nat>, waits: seq<nat>)
    ensures r == BatchOutcome(send, items, maxRetries)
    ensures items == [] ==> r == Ok(0) && waits == []
    ensures r.Ok? ==> r.value == |items|
    ensures waits == BatchWaits(send, items, maxRetries)
    ensures forall w :: w in waits ==> 2000 <= w <= MaxBackoffMs
    ensures WithinRetryLimit(waits, |Chunks(items, BatchSize)|, maxRetries)
    ensures r.Err? ==> EndsWithAllRetries(waits, maxRetries)
  {
    BatchWaitsCount(send, items, maxRetries);
    BatchWaitsRange(send, items, maxRetries);
    BatchOutcomeWritten(send, items, maxRetries);
    waits := [];
    if |items| == 0 {
      return Ok(0), waits;
    }
    var written := 0;
    var groups := Chunk(items, BatchSize);
    for k := 0 to |groups|
      invariant RunGroups(send, groups, k, maxRetries, written) == BatchOutcome(send, items, maxRetries)
      invariant waits + RunWaits(send, groups, k, maxRetries, written) == BatchWaits(send, items, maxRetries)
    {
      var result, groupWaits := WriteGroup(send, k, groups[k], maxRetries, written);
      WaitsAfterGroup(send, groups, k, maxRetries, written, waits);
      if result.Err? {
        return Err(result.error), waits + groupWaits;
      }
      written := result.value;
      waits := waits + groupWaits;
    }
    r := Ok(written);
  }

}
