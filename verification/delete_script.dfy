/** The helpers of src/script/delete-low-mileage.js, which scans a DynamoDB
    table and deletes the trips below a mileage threshold: its command-line
    parser, the configuration lookup with the threshold check and the dry-run
    flag, the attribute conversion, the key extraction and the `batchDelete`
    retry loop. The process arguments and environment are inputs; so are
    `Number`, `JSON.stringify` and the service's answers. */
module DeleteScript {
  import opened Wrappers
  import opened JsStrings
  import opened JsMath
  import opened CliArgs
  import opened BatchRetry
  import SyncScript

  // ---------------------------------------------------------------------------
  // parseArgs

  /** The assignments this script's `parseArgs` makes, reading from token `i`.
      Unlike the sync script's parser it takes the next token as a value
      whenever that token can be one, even after `--k=v`, where the value is
      then thrown away. */
  function Options(argv: seq<string>, i: nat): seq<(string, string)>
    requires i <= |argv|
    decreases |argv| - i
  {
    if i == |argv| then []
    else if !IsOption(argv[i]) then Options(argv, i + 1)
    else if TakesValue(argv, i + 1) then [(Key(argv[i]), SyncScript.ValueAt(argv, i))] + Options(argv, i + 2)
    else [(Key(argv[i]), SyncScript.ValueAt(argv, i))] + Options(argv, i + 1)
  }

  /** What this script's `parseArgs(argv)` returns. */
  function Parsed(argv: seq<string>): map<string, string> {
    Assign(map[], Options(argv, 0))
  }

  /** An option token's own assignment comes first, then those after it and
      after the value token it took. */
  lemma OptionStep(argv: seq<string>, i: nat)
    requires i < |argv| && IsOption(argv[i])
    ensures Options(argv, i) ==
      [(Key(argv[i]), SyncScript.ValueAt(argv, i))] + Options(argv, if TakesValue(argv, i + 1) then i + 2 else i + 1)
  {
  }

  /** Parsing on from an option token: its assignment is made first, then
      parsing goes on after it and after the value token it took. */
  lemma OptionAssigned(argv: seq<string>, i: nat, out: map<string, string>)
    requires i < |argv| && IsOption(argv[i])
    ensures Assign(out, Options(argv, i)) ==
      Assign(out[Key(argv[i]) := SyncScript.ValueAt(argv, i)], Options(argv, if TakesValue(argv, i + 1) then i + 2 else i + 1))
  {
    OptionStep(argv, i);
    AssignCons(out, (Key(argv[i]), SyncScript.ValueAt(argv, i)), Options(argv, if TakesValue(argv, i + 1) then i + 2 else i + 1));
  }

  /** The token swallowed after `--k=v` is one the sync script's parser passes
      over anyway, since it is not an option: both parsers make the same
      assignments. */
  lemma {:induction false} SameAsSync(argv: seq<string>, i: nat)
    requires i <= |argv|
    ensures Options(argv, i) == SyncScript.Options(argv, i)
    decreases |argv| - i
  {
    if i < |argv| {
      if IsOption(argv[i]) && TakesValue(argv, i + 1) {
        SameAsSync(argv, i + 2);
        assert SyncScript.Options(argv, i + 1) == SyncScript.Options(argv, i + 2);
      } else {
        SameAsSync(argv, i + 1);
      }
    }
  }

  /** One option token of `parseArgs` read at `i`: its key, its value, and the
      index after it and after the value token it took (`argv[++i]`). */
  method ReadOption(argv: seq<string>, i: nat) returns (key: string, value: string, next: nat)
    requires i < |argv| && IsOption(argv[i])
    ensures key == Key(argv[i]) && value == SyncScript.ValueAt(argv, i)
    ensures next == if TakesValue(argv, i + 1) then i + 2 else i + 1
  {
    var token := argv[i];
    var eqIndex := IndexOf(token, '=');
    key := if eqIndex > -1 then token[2..eqIndex] else token[2..];
    SplitOption(token);
    var nextValue;
    next := i + 1;
    if i + 1 < |argv| && argv[i + 1] != "" && !IsOption(argv[i + 1]) {
      next := i + 2;
      nextValue := argv[i + 1];
    } else {
      nextValue := "true";
    }
    value := if eqIndex > -1 then token[eqIndex + 1..] else nextValue;
  }

  /** `parseArgs`: the same object the sync script's parser returns. */
  method ParseArgs(argv: seq<string>) returns (out: map<string, string>)
    ensures out == Parsed(argv)
    ensures out == SyncScript.Parsed(argv)
  {
    out := map[];
    var i := 0;
    while i < |argv|
      invariant 0 <= i <= |argv|
      invariant Assign(out, Options(argv, i)) == Parsed(argv)
      decreases |argv| - i
    {
      var token := argv[i];
      if !IsOption(token) {
        i := i + 1;
        continue;
      }
      var key, value, next := ReadOption(argv, i);
      OptionAssigned(argv, i, out);
      out := out[key := value];
      i := next;
    }
    SameAsSync(argv, 0);
  }

  // ---------------------------------------------------------------------------
  // readConfig

  /** `get(...candidates)`: for each key in turn, the command-line value, else
      the environment variable named by the upper-cased key with `-` replaced
      by `_`; unlike the sync script, an empty environment value counts. */
  function Get(args: map<string, string>, env: map<string, string>, keys: seq<string>): Option<string>
    decreases |keys|
  {
    if keys == [] then None
    else if keys[0] in args then Some(args[keys[0]])
    else if EnvName(keys[0]) in env then Some(env[EnvName(keys[0])])
    else Get(args, env, keys[1..])
  }

  /** The lookup finds nothing exactly when no key is set in either place. */
  lemma {:induction false} GetSpec(args: map<string, string>, env: map<string, string>, keys: seq<string>)
    ensures Get(args, env, keys).None? <==> forall k :: k in keys ==> k !in args && EnvName(k) !in env
    decreases |keys|
  {
    if keys != [] {
      GetSpec(args, env, keys[1..]);
      assert forall k :: k in keys ==> k == keys[0] || k in keys[1..];
    }
  }

  /** The keys set nowhere are passed over: the first key set anywhere
      decides, its command-line value before its environment value. */
  lemma {:induction false} GetSkipsUnset(args: map<string, string>, env: map<string, string>, keys: seq<string>, j: nat)
    requires j < |keys|
    requires forall l :: 0 <= l < j ==> keys[l] !in args && EnvName(keys[l]) !in env
    ensures keys[j] in args ==> Get(args, env, keys) == Some(args[keys[j]])
    ensures keys[j] !in args && EnvName(keys[j]) in env ==> Get(args, env, keys) == Some(env[EnvName(keys[j])])
    decreases j
  {
    if j > 0 {
      assert keys[0] !in args && EnvName(keys[0]) !in env;
      assert keys[1..][j - 1] == keys[j];
      forall l | 0 <= l < j - 1 ensures keys[1..][l] !in args && EnvName(keys[1..][l]) !in env {
        assert keys[1..][l] == keys[l + 1];
      }
      GetSkipsUnset(args, env, keys[1..], j - 1);
    }
  }

  /** `v ?? fallback` */
  function OrElse(v: Option<string>, fallback: string): string {
    if v.Some? then v.value else fallback
  }

  /** The words that switch the dry run on. */
  const DryRunWords: seq<string> := ["1", "true", "yes"]

  /** `["1", "true", "yes"].includes(String(v ?? "false").toLowerCase())` */
  function DryRun(v: Option<string>): bool {
    ToLower(OrElse(v, "false")) in DryRunWords
  }

  /** The dry run is on exactly when a value is given and it is one of the
      words in any mix of case; leaving it out means a real run. */
  lemma DryRunSpec(v: Option<string>)
    ensures DryRun(v) <==> v.Some? && ToLower(v.value) in DryRunWords
    ensures v.Some? ==> DryRun(v) == DryRun(Some(ToUpper(v.value)))
  {
    if v.None? {
      assert ToLower("false") == "false";
    } else {
      assert ToLower(ToUpper(v.value)) == ToLower(v.value);
    }
  }

  /** The configuration `readConfig` returns. `Number` yields `None` for
      anything that is not a finite number. */
  datatype DeleteConfig = DeleteConfig(
    tableName: string, threshold: real, partitionKey: string, sortKey: Option<string>,
    region: string, endpoint: string, accessKeyId: string, secretAccessKey: string,
    pageLimit: Option<real>, maxRetries: Option<real>, rateSleepMs: Option<real>, dryRun: bool)

  /** The threshold setting as `Number` reads it. */
  function Threshold(args: map<string, string>, env: map<string, string>, toNumber: string -> Option<real>): Option<real> {
    toNumber(OrElse(Get(args, env, ["threshold", "THRESHOLD"]), "100"))
  }

  /** The settings other than the table name and the threshold. */
  function Settings(args: map<string, string>, env: map<string, string>, toNumber: string -> Option<real>,
                    tableName: string, threshold: real): DeleteConfig {
    DeleteConfig(
      tableName,
      threshold,
      OrElse(Get(args, env, ["partition-key", "PARTITION_KEY"]), "id"),
      Get(args, env, ["sort-key", "SORT_KEY"]),
      OrElse(Get(args, env, ["region", "REGION"]), "us-east-1"),
      OrElse(Get(args, env, ["endpoint", "ENDPOINT", "LOCALSTACK_ENDPOINT"]), "http://localhost:4566"),
      OrElse(Get(args, env, ["access-key-id", "ACCESS_KEY_ID"]), "test"),
      OrElse(Get(args, env, ["secret-access-key", "SECRET_ACCESS_KEY"]), "test"),
      toNumber(OrElse(Get(args, env, ["page-limit", "PAGE_LIMIT"]), "100")),
      toNumber(OrElse(Get(args, env, ["max-retries", "MAX_RETRIES"]), "8")),
      toNumber(OrElse(Get(args, env, ["rate-sleep", "RATE_SLEEP_MS"]), "0")),
      DryRun(Get(args, env, ["dry-run", "DRY_RUN"])))
  }

  /** `readConfig`: an error (the process exits) when no table name is given or
      the threshold is not a finite non-negative number. */
  function ReadConfig(args: map<string, string>, env: map<string, string>, toNumber: string -> Option<real>): (r: Result<DeleteConfig, string>)
    ensures r.Err? <==>
      || OrElse(Get(args, env, ["table", "TABLE_NAME"]), "") == ""
      || Threshold(args, env, toNumber).None?
      || Threshold(args, env, toNumber).value < 0.0
    ensures r.Ok? ==>
      && r.value.tableName != ""
      && Get(args, env, ["table", "TABLE_NAME"]) == Some(r.value.tableName)
      && r.value.threshold >= 0.0
      && Threshold(args, env, toNumber) == Some(r.value.threshold)
  {
    var tableName := Get(args, env, ["table", "TABLE_NAME"]);
    var threshold := Threshold(args, env, toNumber);
    if OrElse(tableName, "") == "" then Err("table name missing")
    else if threshold.None? || threshold.value < 0.0 then Err("threshold must be a non-negative number")
    else Ok(Settings(args, env, toNumber, tableName.value, threshold.value))
  }

  /** With only `--table` given, an empty environment and `Number` reading
      `"100"` as 100, the threshold is 100, the partition key is `id`, there is
      no sort key and the run is real, not dry. */
  lemma OnlyTableGiven(table: string, toNumber: string -> Option<real>)
    requires table != "" && toNumber("100") == Some(100.0)
    ensures var r := ReadConfig(map["table" := table], map[], toNumber);
      && r.Ok?
      && r.value.threshold == 100.0
      && r.value.partitionKey == "id"
      && r.value.sortKey == None
      && !r.value.dryRun
  {
    var args := map["table" := table];
    var env: map<string, string> := map[];
    assert Get(args, env, ["table", "TABLE_NAME"]) == Some(table);
    NothingGiven(args, env, ["threshold", "THRESHOLD"]);
    NothingGiven(args, env, ["partition-key", "PARTITION_KEY"]);
    NothingGiven(args, env, ["sort-key", "SORT_KEY"]);
    NothingGiven(args, env, ["dry-run", "DRY_RUN"]);
    DryRunSpec(None);
  }

  /** A lookup none of whose keys is on the command line, with an empty
      environment, finds nothing. */
  lemma {:induction false} NothingGiven(args: map<string, string>, env: map<string, string>, keys: seq<string>)
    requires env == map[]
    requires forall k :: k in keys ==> k !in args
    ensures Get(args, env, keys) == None
    decreases |keys|
  {
    if keys != [] {
      assert keys[0] in keys;
      NothingGiven(args, env, keys[1..]);
    }
  }

  // ---------------------------------------------------------------------------
  // Items and keys

  /** A DynamoDB attribute value, as far as the conversion looks at it: the
      string, number (as its decimal text), boolean and null members. */
  datatype AttributeValue = AttributeValue(s: Option<string>, n: Option<string>, b: Option<bool>, nul: Option<bool>)

  /** What `attrValueToPrimitive` returns; `Num(None)` is a `Number` result that
      is not a finite number (NaN or an infinity). */
  datatype Primitive = Undefined | Str(s: string) | Num(n: Option<real>) | Bool(b: bool) | Null | Json(text: string)

  /** `attrValueToPrimitive(av)` */
  function AttrValueToPrimitive(av: Option<AttributeValue>, toNumber: string -> Option<real>,
                                stringify: AttributeValue -> string): (r: Primitive)
    ensures r.Undefined? <==> av.None?
    ensures r.Str? <==> av.Some? && av.value.s.Some?
    ensures r.Num? <==> av.Some? && av.value.s.None? && av.value.n.Some?
    ensures r.Bool? <==> av.Some? && av.value.s.None? && av.value.n.None? && av.value.b.Some?
    ensures r.Null? <==> av.Some? && av.value.s.None? && av.value.n.None? && av.value.b.None? && av.value.nul == Some(true)
    ensures r.Str? ==> r.s == av.value.s.value
    ensures r.Num? ==> r.n == toNumber(av.value.n.value)
    ensures r.Bool? ==> r.b == av.value.b.value
    ensures r.Json? ==> r.text == stringify(av.value)
  {
    match av
    case None => Undefined
    case Some(v) =>
      if v.s.Some? then Str(v.s.value)
      else if v.n.Some? then Num(toNumber(v.n.value))
      else if v.b.Some? then Bool(v.b.value)
      else if v.nul == Some(true) then Null
      else Json(stringify(v))
  }

  /** `if (CONFIG.sortKey)`: a sort key is configured when one is given and it
      is not empty. */
  predicate HasSortKey(sortKey: Option<string>) {
    sortKey.Some? && sortKey.value != ""
  }

  /** `extractKeyFromItem(item)`: the primary key of a scanned item, or the
      error thrown when one of its attributes is missing. */
  function ExtractKeyFromItem(item: map<string, AttributeValue>, partitionKey: string, sortKey: Option<string>): (r: Result<map<string, AttributeValue>, string>)
    ensures r.Err? <==> partitionKey !in item || (HasSortKey(sortKey) && sortKey.value !in item)
    ensures r.Ok? ==>
      && r.value.Keys == {partitionKey} + (if HasSortKey(sortKey) then {sortKey.value} else {})
      && forall k :: k in r.value ==> k in item && r.value[k] == item[k]
  {
    if partitionKey !in item then Err("scan result lacks the partition key " + partitionKey)
    else
      var key := map[partitionKey := item[partitionKey]];
      if HasSortKey(sortKey) then
        if sortKey.value !in item then Err("scan result lacks the sort key " + sortKey.value)
        else Ok(key[sortKey.value := item[sortKey.value]])
      else Ok(key)
  }

  // ---------------------------------------------------------------------------
  // batchDelete

  /** `attempt > CONFIG.maxRetries` for a whole attempt count compares it with
      the floor of the limit. */
  lemma AboveLimit(attempt: int, maxRetries: real)
    ensures attempt as real > maxRetries <==> attempt > Floor(maxRetries)
  {
  }

  /** The retry loop of `batchDelete` for slice `g`: send, count what went
      through, and retry the unprocessed keys after a backoff until none are
      left or the attempt number exceeds `CONFIG.maxRetries`. The result is the
      new count, or the error (the thrown exception) with the keys left;
      `waits` holds the backoff before each retry. */
  method DeleteSlice<T>(send: Send<T>, g: nat, slice: seq<T>, maxRetries: real, deleted: int) returns (r: Result<int, nat>, waits: seq<nat>)
    requires |slice| > 0
    ensures r == GroupRun(send, g, 0, slice, Floor(maxRetries), deleted)
    ensures waits == GroupWaits(send, g, 0, slice, Floor(maxRetries))
  {
    var limit := Floor(maxRetries);
    var requestItems := slice;
    var attempt := 0;
    var count := deleted;
    waits := [];
    while |requestItems| > 0
      invariant GroupRun(send, g, attempt, requestItems, limit, count) == GroupRun(send, g, 0, slice, limit, deleted)
      invariant waits + GroupWaits(send, g, attempt, requestItems, limit) == GroupWaits(send, g, 0, slice, limit)
      invariant |requestItems| > 0
      decreases if attempt <= limit then limit - attempt + 1 else 0
    {
      var unprocessed := send(g, attempt, requestItems);
      GroupRunStep(send, g, attempt, requestItems, limit, count);
      WaitsAfterSend(send, g, attempt, requestItems, limit, waits, GroupWaits(send, g, 0, slice, limit));
      count := count + |requestItems| - |unprocessed|;
      if |unprocessed| == 0 {
        return Ok(count), waits;
      }
      attempt := attempt + 1;
      AboveLimit(attempt, maxRetries);
      if attempt as real > maxRetries {
        return Err(|unprocessed|), waits;
      }
      waits := waits + [Backoff(attempt)];
      requestItems := unprocessed;
    }
    assert false;
  }

  /** `batchDelete(keys)`: the keys go out in slices of 25 and each slice's
      unprocessed keys are sent again until none are left; the result is the
      count deleted, or an error (the thrown exception) carrying the keys still
      unprocessed when the retries ran out. `waits` holds the backoff before
      each retry: at most `CONFIG.maxRetries` (rounded down) per slice, and a
      call that gives up ends with the full set of backoffs of the slice that
      ran out. The random jitter and the sleep are not modelled. */
  method BatchDelete<T>(keys: seq<T>, send: Send<T>, maxRetries: real) returns (r: Result<int, nat>, waits: seq<nat>)
    ensures r == BatchOutcome(send, keys, Floor(maxRetries))
    ensures keys == [] ==> r == Ok(0) && waits == []
    ensures r.Ok? ==> r.value == |keys|
    ensures waits == BatchWaits(send, keys, Floor(maxRetries))
    ensures forall w :: w in waits ==> 2000 <= w <= MaxBackoffMs
    ensures WithinRetryLimit(waits, |Chunks(keys, BatchSize)|, Floor(maxRetries))
    ensures r.Err? ==> EndsWithAllRetries(waits, Floor(maxRetries))
  {
    var limit := Floor(maxRetries);
    waits := [];
    if |keys| == 0 {
      BatchWaitsCount(send, keys, limit);
      return Ok(0), waits;
    }
    ghost var groups := Chunks(keys, BatchSize);
    FirstPiece(keys, BatchSize);
    var deleted := 0;
    var i := 0;
    var g := 0;
    while i < |keys|
      invariant AtPiece(keys, BatchSize, groups, i, g)
      invariant RunGroups(send, groups, g, limit, deleted) == BatchOutcome(send, keys, limit)
      invariant waits + RunWaits(send, groups, g, limit, deleted) == BatchWaits(send, keys, limit)
      decreases |keys| - i
    {
      var requestItems := keys[i..if i + BatchSize < |keys| then i + BatchSize else |keys|];
      NextSlice(keys, BatchSize, groups, i, g);
      var result, sliceWaits := DeleteSlice(send, g, requestItems, maxRetries, deleted);
      if result.Err? {
        LastGroupWaits(send, groups, g, limit, deleted, waits);
        r, waits := Err(result.error), waits + sliceWaits;
        break;
      }
      NextGroupWaits(send, groups, g, limit, deleted, waits, result.value);
      deleted := result.value;
      waits := waits + sliceWaits;
      i := i + BatchSize;
      g := g + 1;
    }
    if i >= |keys| {
      r := Ok(deleted);
    }
    assert r == BatchOutcome(send, keys, limit) && waits == BatchWaits(send, keys, limit);
    BatchWaitsCount(send, keys, limit);
    BatchWaitsRange(send, keys, limit);
    BatchOutcomeWritten(send, keys, limit);
  }

}
