/** The command-line conventions both maintenance scripts share
    (src/script/sync-ddb-to-localstack.js and src/script/delete-low-mileage.js,
    `parseArgs`): an option token starts with `--`, its key runs to the first
    `=`, and the options are assigned into one object in order, so a later
    option overwrites an earlier one with the same key. */
module CliArgs {
  import opened JsStrings

  /** `token.startsWith("--")` */
  predicate IsOption(token: string) {
    |token| >= 2 && token[0] == '-' && token[1] == '-'
  }

  /** `argv[j] && !argv[j].startsWith("--")`: the token after a bare flag is
      taken as its value when it exists, is not empty and is not an option. */
  predicate TakesValue(argv: seq<string>, j: nat) {
    j < |argv| && argv[j] != "" && !IsOption(argv[j])
  }

  /** The key of an option token: the text after `--` up to the first `=`, or
      to the end of the token when it has none. */
  function Key(token: string): (k: string)
    requires IsOption(token)
    ensures |k| + 2 <= |token| && token[..|k| + 2] == "--" + k
    ensures '=' !in k
    ensures |k| + 2 < |token| ==> token[|k| + 2] == '='
    ensures '=' !in token ==> token == "--" + k
  {
    var eq := IndexOf(token, '=');
    if eq > -1 then
      assert token[..eq] == "--" + token[2..eq];
      token[2..eq]
    else
      assert token == token[..2] + token[2..];
      token[2..]
  }

  /** The value written inline after the first `=` of an option token. */
  function InlineValue(token: string): (v: string)
    requires IsOption(token) && '=' in token
    ensures token == "--" + Key(token) + "=" + v
  {
    var k := Key(token);
    var v := token[|k| + 3..];
    assert token == token[..|k| + 2] + [token[|k| + 2]] + v;
    v
  }

  /** Cutting the token at `indexOf("=")`, as `parseArgs` does, gives the key
      and the inline value above. */
  lemma SplitOption(token: string)
    requires IsOption(token)
    ensures var eq := IndexOf(token, '=');
      && (eq > -1 <==> '=' in token)
      && (eq > -1 ==> 2 <= eq && token[2..eq] == Key(token) && token[eq + 1..] == InlineValue(token))
      && (eq == -1 ==> token[2..] == Key(token))
  {
  }

  /** `key.toUpperCase().replace(/-/g, "_")`: the environment variable name a
      configuration key is looked up under. */
  function EnvName(key: string): string {
    ReplaceAll(ToUpper(key), '-', '_')
  }

  /** The parsed options written into `out` one after the other. */
  function Assign(out: map<string, string>, options: seq<(string, string)>): map<string, string>
    decreases |options|
  {
    if options == [] then out
    else Assign(out[options[0].0 := options[0].1], options[1..])
  }

  /** The keys of the result are those already present and those of the
      options. */
  lemma {:induction false} AssignKeys(out: map<string, string>, options: seq<(string, string)>)
    ensures Assign(out, options).Keys == out.Keys + set j | 0 <= j < |options| :: options[j].0
    decreases |options|
  {
    if options != [] {
      AssignKeys(out[options[0].0 := options[0].1], options[1..]);
      var rest := options[1..];
      var all := set j | 0 <= j < |options| :: options[j].0;
      var later := set j | 0 <= j < |rest| :: rest[j].0;
      assert all == {options[0].0} + later by {
        forall x | x in all ensures x in {options[0].0} + later {
          var j :| 0 <= j < |options| && options[j].0 == x;
          if j > 0 {
            assert rest[j - 1].0 == x;
          }
        }
        forall x | x in later ensures x in all {
          var j :| 0 <= j < |rest| && rest[j].0 == x;
          assert options[j + 1].0 == x;
        }
      }
    }
  }

  /** The last option with a given key decides its value. */
  lemma {:induction false} AssignLastWins(out: map<string, string>, options: seq<(string, string)>, j: nat)
    requires j < |options|
    requires forall l :: j < l < |options| ==> options[l].0 != options[j].0
    ensures options[j].0 in Assign(out, options)
    ensures Assign(out, options)[options[j].0] == options[j].1
    decreases |options|
  {
    var next := out[options[0].0 := options[0].1];
    if j == 0 {
      AssignUntouched(next, options[1..], options[0].0);
    } else {
      AssignLastWins(next, options[1..], j - 1);
    }
  }

  /** A key no option names keeps its value. */
  lemma {:induction false} AssignUntouched(out: map<string, string>, options: seq<(string, string)>, k: string)
    requires forall l :: 0 <= l < |options| ==> options[l].0 != k
    ensures k in Assign(out, options) <==> k in out
    ensures k in out ==> Assign(out, options)[k] == out[k]
    decreases |options|
  {
    if options != [] {
      assert options[0].0 != k;
      AssignUntouched(out[options[0].0 := options[0].1], options[1..], k);
    }
  }

  /** One option more at the front is one assignment more first. */
  lemma AssignCons(out: map<string, string>, option: (string, string), options: seq<(string, string)>)
    ensures Assign(out, [option] + options) == Assign(out[option.0 := option.1], options)
  {
    assert ([option] + options)[1..] == options;
  }
}
