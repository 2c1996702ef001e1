/** The environment configuration script (bin/configure.js): reading the
    command line, choosing and showing each variable's default, and keeping
    the draft dotenv file up to date as answers come in. */
module Configure {
  import opened Wrappers
  import opened Text

  /** The keys of the frozen `Environment` object. */
  const Environments: set<string> := {"dev", "staging", "production"}

  /** What reading the command line leads to. `Help`, `InvalidEnvironment`
      and `InvalidArgument` stand for the paths that print and exit. */
  datatype CliOutcome =
    | Args(environment: string)
    | Help
    | InvalidEnvironment(value: Option<string>)
    | InvalidArgument(key: string)

  predicate IsEnvironmentFlag(key: string) {
    key == "-e" || key == "--environment"
  }

  predicate IsHelpFlag(key: string) {
    key == "-h" || key == "--help"
  }

  /** The arguments from index `i` on, read with `env` as the environment
      chosen so far. Each argument is split at `=` into a key and an
      optional value; an environment flag without a value takes the next
      argument, which is missing past the end. */
  function ParseFrom(argv: seq<string>, i: nat, env: string): CliOutcome
    decreases |argv| - i
  {
    if i >= |argv| then Args(env)
    else
      var parts := Split(argv[i], '=');
      var key := parts[0];
      if IsEnvironmentFlag(key) then
        var value := if |parts| > 1 then Some(parts[1]) else if i + 1 < |argv| then Some(argv[i + 1]) else None;
        var next := if |parts| > 1 then i + 1 else i + 2;
        if value.None? || value.value !in Environments then InvalidEnvironment(value)
        else ParseFrom(argv, next, value.value)
      else if IsHelpFlag(key) then Help
      else InvalidArgument(key)
  }

  /** `getCliArgs()` over `process.argv`: the user's arguments start at
      index 2 and the environment starts as `dev`. */
  method GetCliArgs(argv: seq<string>) returns (r: CliOutcome)
    ensures r == ParseFrom(argv, 2, "dev")
  {
    var environment := "dev";
    var i := 2;
    while i < |argv|
      invariant i >= 2
      invariant ParseFrom(argv, i, environment) == ParseFrom(argv, 2, "dev")
      decreases |argv| - i
    {
      var parts := Split(argv[i], '=');
      var key := parts[0];
      if IsEnvironmentFlag(key) {
        var value: Option<string>;
        if |parts| > 1 {
          value := Some(parts[1]);
        } else {
          i := i + 1;
          value := if i < |argv| then Some(argv[i]) else None;
        }
        if value.None? || value.value !in Environments {
          return InvalidEnvironment(value);
        }
        environment := value.value;
      } else if IsHelpFlag(key) {
        return Help;
      } else {
        return InvalidArgument(key);
      }
      i := i + 1;
    }
    return Args(environment);
  }

  /** Without arguments of their own the environment is `dev`. */
  lemma NoArgumentsMeansDev(argv: seq<string>)
    requires |argv| <= 2
    ensures ParseFrom(argv, 2, "dev") == Args("dev")
  {
  }

  /** Whatever the arguments, a chosen environment is one of the allowed
      ones. */
  lemma {:induction false} ParsedEnvironmentIsAllowed(argv: seq<string>, i: nat, env: string)
    requires env in Environments
    ensures ParseFrom(argv, i, env).Args? ==> ParseFrom(argv, i, env).environment in Environments
    decreases |argv| - i
  {
    if i < |argv| {
      var parts := Split(argv[i], '=');
      if IsEnvironmentFlag(parts[0]) {
        var next := if |parts| > 1 then i + 1 else i + 2;
        var value := if |parts| > 1 then Some(parts[1]) else if i + 1 < |argv| then Some(argv[i + 1]) else None;
        if value.Some? && value.value in Environments {
          ParsedEnvironmentIsAllowed(argv, next, value.value);
        }
      }
    }
  }

  /** `flag=x` splits into the flag and `x` when neither holds an `=`. */
  lemma SplitKeyValue(key: string, x: string)
    requires '=' !in key && '=' !in x
    ensures Split(key + "=" + x, '=') == [key, x]
  {
    SplitAfterPart(key, '=', x);
    SplitWithoutSeparator(x, '=');
  }

  /** `-e=x` and `--environment=x` choose `x` when it is allowed and fail
      on it otherwise. */
  lemma InlineEnvironment(argv: seq<string>, i: nat, env: string, flag: string, x: string)
    requires IsEnvironmentFlag(flag) && '=' !in x
    requires i < |argv| && argv[i] == flag + "=" + x
    ensures ParseFrom(argv, i, env) == if x in Environments then ParseFrom(argv, i + 1, x) else InvalidEnvironment(Some(x))
  {
    SplitKeyValue(flag, x);
  }

  /** `-e x` and `--environment x` take the next argument, and fail when
      there is none or it is not allowed. */
  lemma SeparateEnvironment(argv: seq<string>, i: nat, env: string, flag: string)
    requires IsEnvironmentFlag(flag)
    requires i < |argv| && argv[i] == flag
    ensures i + 1 < |argv| && argv[i + 1] in Environments ==> ParseFrom(argv, i, env) == ParseFrom(argv, i + 2, argv[i + 1])
    ensures i + 1 < |argv| && argv[i + 1] !in Environments ==> ParseFrom(argv, i, env) == InvalidEnvironment(Some(argv[i + 1]))
    ensures i + 1 == |argv| ==> ParseFrom(argv, i, env) == InvalidEnvironment(None)
  {
    SplitWithoutSeparator(flag, '=');
  }

  /** Arguments appended after a complete reading are read from the
      environment that reading chose: an earlier choice only matters until
      a later flag replaces it. */
  lemma {:induction false} ReadingContinues(argv: seq<string>, extra: seq<string>, i: nat, env: string)
    requires i <= |argv| && ParseFrom(argv, i, env).Args?
    ensures ParseFrom(argv + extra, i, env) == ParseFrom(argv + extra, |argv|, ParseFrom(argv, i, env).environment)
    decreases |argv| - i
  {
    if i < |argv| {
      assert (argv + extra)[i] == argv[i];
      var parts := Split(argv[i], '=');
      if IsEnvironmentFlag(parts[0]) {
        var next := if |parts| > 1 then i + 1 else i + 2;
        if |parts| == 1 {
          assert (argv + extra)[i + 1] == argv[i + 1];
        }
        var value := if |parts| > 1 then parts[1] else argv[i + 1];
        ReadingContinues(argv, extra, next, value);
      }
    }
  }

  /** A last argument `-e=x` with an allowed `x` ends the reading with `x`. */
  lemma LastEnvironmentFlag(argv: seq<string>, env: string, x: string)
    requires |argv| > 0 && argv[|argv| - 1] == "-e=" + x && x in Environments
    ensures ParseFrom(argv, |argv| - 1, env) == Args(x)
  {
    assert '=' !in x by {
      assert x == "dev" || x == "staging" || x == "production";
    }
    assert "-e" + "=" + x == "-e=" + x;
    InlineEnvironment(argv, |argv| - 1, env, "-e", x);
  }

  /** A later `-e=x` overrides the environment chosen before it. */
  lemma LaterFlagOverrides(argv: seq<string>, x: string)
    requires 2 <= |argv| && ParseFrom(argv, 2, "dev").Args? && x in Environments
    ensures ParseFrom(argv + ["-e=" + x], 2, "dev") == Args(x)
  {
    ReadingContinues(argv, ["-e=" + x], 2, "dev");
    LastEnvironmentFlag(argv + ["-e=" + x], ParseFrom(argv, 2, "dev").environment, x);
  }

  /** After any complete reading, `-h` or `--help` stops the reading, so
      the arguments after it are never looked at, and an unknown flag fails
      whatever follows it. */
  lemma HelpAndUnknownFlags(argv: seq<string>, flag: string, rest: seq<string>)
    requires 2 <= |argv| && ParseFrom(argv, 2, "dev").Args? && '=' !in flag
    ensures IsHelpFlag(flag) ==> ParseFrom(argv + [flag] + rest, 2, "dev") == Help
    ensures !IsHelpFlag(flag) && !IsEnvironmentFlag(flag) ==> ParseFrom(argv + [flag] + rest, 2, "dev") == InvalidArgument(flag)
  {
    assert argv + [flag] + rest == argv + ([flag] + rest);
    ReadingContinues(argv, [flag] + rest, 2, "dev");
    SplitWithoutSeparator(flag, '=');
    assert (argv + ([flag] + rest))[|argv|] == flag;
  }

  /** An entry of `ENVIRONMENT_VARIABLE_CONFIGS`. */
  datatype VarConfig = VarConfig(name: string, caption: string, fallback: Option<string>, masked: bool)

  /** `ENVIRONMENT_VARIABLE_CONFIGS`, with `path.resolve('logs')` given as
      `logsPath`. */
  function VariableConfigs(logsPath: string): seq<VarConfig> {
    [ VarConfig("MYSQL_HOST", "MySQL Host", Some("localhost"), false),
      VarConfig("MYSQL_DATABASE", "MySQL Database", Some("typescript_server_starter_kit"), false),
      VarConfig("MYSQL_USER", "MySQL User", Some("mysql"), false),
      VarConfig("MYSQL_PASSWORD", "MySQL Password", None, true),
      VarConfig("LOG_FILE_PATH", "Log File Path", Some(logsPath), false),
      VarConfig("RECAPTCHA_SITE_KEY", "ReCaptcha Site Key", None, false),
      VarConfig("RECAPTCHA_SECRET_KEY", "ReCaptcha Secret Key", None, true) ]
  }

  predicate DistinctNames(configs: seq<VarConfig>) {
    forall i, j | 0 <= i < j < |configs| :: configs[i].name != configs[j].name
  }

  /** Every variable is asked for once: the names are distinct, and the
      passwords and the secret key are the masked ones. */
  lemma VariableConfigsShape(logsPath: string)
    ensures |VariableConfigs(logsPath)| == 7 && DistinctNames(VariableConfigs(logsPath))
    ensures forall c | c in VariableConfigs(logsPath) :: c.masked <==> c.name in {"MYSQL_PASSWORD", "RECAPTCHA_SECRET_KEY"}
  {
  }

  /** A JavaScript truthy string: present and not empty. */
  predicate Truthy(s: Option<string>) {
    s.Some? && s.value != ""
  }

  /** The default `main` passes for a variable: the draft value if there
      is one, else the old dotenv value, else the configured default. */
  function PassedDefault(draft: map<string, string>, oldDotenv: map<string, string>, config: VarConfig): Option<string> {
    if config.name in draft then Some(draft[config.name])
    else if config.name in oldDotenv then Some(oldDotenv[config.name])
    else config.fallback
  }

  /** The default the prompt uses: the passed default when it is truthy,
      else the configured default. */
  function EffectiveDefault(passed: Option<string>, config: VarConfig): (r: Option<string>)
    ensures r == passed || r == config.fallback
    ensures Truthy(passed) ==> r == passed
    ensures Truthy(r) <==> Truthy(passed) || Truthy(config.fallback)
  {
    if Truthy(passed) then passed else config.fallback
  }

  /** The default offered for a variable. A value in the draft, even an
      empty one, hides the old dotenv value; an empty one then falls back
      to the configured default. */
  lemma DefaultChoice(draft: map<string, string>, oldDotenv: map<string, string>, config: VarConfig)
    ensures var d := EffectiveDefault(PassedDefault(draft, oldDotenv, config), config);
            && (config.name in draft && draft[config.name] != "" ==> d == Some(draft[config.name]))
            && (config.name in draft && draft[config.name] == "" ==> d == config.fallback)
            && (config.name !in draft && config.name in oldDotenv && oldDotenv[config.name] != "" ==> d == Some(oldDotenv[config.name]))
            && (config.name !in draft && (config.name !in oldDotenv || oldDotenv[config.name] == "") ==> d == config.fallback)
  {
  }

  /** Applying the fallback to the configured default again changes nothing,
      so a repeated prompt offers the same default. */
  lemma EffectiveDefaultStable(passed: Option<string>, config: VarConfig)
    ensures EffectiveDefault(EffectiveDefault(passed, config), config) == EffectiveDefault(passed, config)
  {
  }

  /** A default as the masked prompt shows it: each character `.` matches,
      that is every one but a line terminator, becomes `*`. */
  function Mask(value: string): (r: string)
    ensures |r| == |value|
    ensures forall i | 0 <= i < |r| :: r[i] == (if IsLineTerminator(value[i]) then value[i] else '*')
  {
    if value == [] then [] else [if IsLineTerminator(value[0]) then value[0] else '*'] + Mask(value[1..])
  }

  /** The prompt for a variable given its effective default. */
  function PromptText(config: VarConfig, defaultValue: Option<string>): (r: string)
    ensures IsPrefix(config.caption, r) && IsSuffix(": ", r)
    ensures Truthy(defaultValue) ==> |r| == |config.caption| + |" (default=)"| + |defaultValue.value| + 2
  {
    var shown := if Truthy(defaultValue) then
                   " (default=" + (if config.masked then Mask(defaultValue.value) else defaultValue.value) + ")"
                 else "";
    config.caption + shown + ": "
  }

  /** Without a default only the label is shown; an unmasked default is
      shown as it is; a masked default is as many `*` as it has characters,
      so two masked defaults of one length give the same prompt. */
  lemma PromptShowsDefault(config: VarConfig, a: string, b: string)
    ensures PromptText(config, None) == config.caption + ": " && PromptText(config, Some("")) == config.caption + ": "
    ensures !config.masked && a != "" ==> PromptText(config, Some(a)) == config.caption + " (default=" + a + "): "
    ensures config.masked && |a| == |b| && a != "" &&
            (forall i | 0 <= i < |a| :: !IsLineTerminator(a[i]) && !IsLineTerminator(b[i])) ==>
              PromptText(config, Some(a)) == PromptText(config, Some(b))
  {
    if config.masked && |a| == |b| && a != "" && forall i | 0 <= i < |a| :: !IsLineTerminator(a[i]) && !IsLineTerminator(b[i]) {
      assert Mask(a) == Mask(b);
    }
  }

  /** A masked default is shown as its mask. */
  lemma PromptShowsMask(config: VarConfig, a: string)
    requires config.masked && a != ""
    ensures PromptText(config, Some(a)) == config.caption + " (default=" + Mask(a) + "): "
  {
  }

  /** The value a run of prompts settles on, given the lines the user
      types: a typed line if it is not empty, else the default; an empty
      outcome asks again. `None` when the typed lines run out first. */
  function Capture(defaultValue: Option<string>, typed: seq<string>): (r: Option<string>)
    ensures r.Some? ==> r.value != ""
    ensures r.Some? ==> r == defaultValue || r.value in typed
    ensures r.None? <==> typed == [] || (!Truthy(defaultValue) && forall i | 0 <= i < |typed| :: typed[i] == "")
    ensures typed != [] && typed[0] != "" ==> r == Some(typed[0])
    ensures typed != [] && typed[0] == "" && Truthy(defaultValue) ==> r == defaultValue
  {
    if typed == [] then None
    else
      var response := if typed[0] != "" then Some(typed[0]) else defaultValue;
      if Truthy(response) then response
      else
        var r := Capture(defaultValue, typed[1..]);
        assert forall i | 1 <= i < |typed| :: typed[i] == typed[1..][i - 1];
        r
  }

  /** A line of the draft file. */
  function DraftLine(name: string, value: string): string {
    name + "='" + value + "'"
  }

  /** The draft values read from the draft file and the file's text. */
  datatype Draft = Draft(values: map<string, string>, text: string)

  /** Recording a value for a variable as `main` does it: when the draft
      already had a truthy value, the first occurrence of its line in the
      text is passed to `String.prototype.replace` with the new line as the
      replacement, so `$` patterns in the value are expanded; otherwise the
      new line is appended. */
  function StepAsWritten(d: Draft, name: string, value: string): (r: Draft)
    ensures r.values == d.values[name := value]
    ensures !(name in d.values && d.values[name] != "") ==> r.text == d.text + DraftLine(name, value) + "\n"
    ensures name in d.values && d.values[name] != "" ==>
              var line := DraftLine(name, d.values[name]);
              match IndexOf(d.text, line)
              case None => r.text == d.text
              case Some(k) => r.text == d.text[..k] + Substitution(DraftLine(name, value), line, d.text[..k], d.text[k + |line|..])
                                        + d.text[k + |line|..]
  {
    if name in d.values && d.values[name] != "" then
      Draft(d.values[name := value], ReplaceFirstJs(d.text, DraftLine(name, d.values[name]), DraftLine(name, value)))
    else
      Draft(d.values[name := value], d.text + DraftLine(name, value) + "\n")
  }

  /** Recording a value with the old line replaced literally. */
  function Step(d: Draft, name: string, value: string): (r: Draft)
    ensures r.values == d.values[name := value]
    ensures !(name in d.values && d.values[name] != "") ==> r.text == d.text + DraftLine(name, value) + "\n"
    ensures name in d.values && d.values[name] != "" ==>
              var line := DraftLine(name, d.values[name]);
              match IndexOf(d.text, line)
              case None => r.text == d.text
              case Some(k) => r.text == d.text[..k] + DraftLine(name, value) + d.text[k + |line|..]
  {
    if name in d.values && d.values[name] != "" then
      Draft(d.values[name := value], ReplaceFirst(d.text, DraftLine(name, d.values[name]), DraftLine(name, value)))
    else
      Draft(d.values[name := value], d.text + DraftLine(name, value) + "\n")
  }

  /** Both ways of recording agree whenever the value holds no `$`. */
  lemma StepAgreesWithoutDollar(d: Draft, name: string, value: string)
    requires '$' !in name && '$' !in value
    ensures StepAsWritten(d, name, value) == Step(d, name, value)
  {
    if name in d.values && d.values[name] != "" {
      assert '$' !in DraftLine(name, value);
      ReplaceFirstJsWithoutDollar(d.text, DraftLine(name, d.values[name]), DraftLine(name, value));
    }
  }

  /** Text without `$` in front of a template passes through the expansion
      unchanged. */
  lemma {:induction false} SubstitutionPlainPrefix(plain: string, rest: string, matched: string, before: string, after: string)
    requires '$' !in plain
    ensures Substitution(plain + rest, matched, before, after) == plain + Substitution(rest, matched, before, after)
    decreases |plain|
  {
    if plain != [] {
      var t := plain + rest;
      assert t[0] == plain[0] && plain[0] != '$';
      assert Substitution(t, matched, before, after) == [t[0]] + Substitution(t[1..], matched, before, after);
      assert t[1..] == plain[1..] + rest;
      assert '$' !in plain[1..];
      SubstitutionPlainPrefix(plain[1..], rest, matched, before, after);
      var tail := Substitution(rest, matched, before, after);
      assert [plain[0]] + (plain[1..] + tail) == plain + tail;
    } else {
      assert plain + rest == rest;
      assert plain + Substitution(rest, matched, before, after) == Substitution(rest, matched, before, after);
    }
  }

  /** A draft whose text starts with the variable's old line, given a new
      value ending in `$&`: the recorded text holds the old line inside the
      new one instead of the value typed, while the literal replacement
      writes the value as typed. */
  lemma DollarAmpersandCorruptsDraft(name: string, oldValue: string, prefix: string, rest: string)
    requires '$' !in name && '$' !in prefix && oldValue != ""
    ensures var d := Draft(map[name := oldValue], DraftLine(name, oldValue) + rest);
            && StepAsWritten(d, name, prefix + "$&").text == name + "='" + prefix + DraftLine(name, oldValue) + "'" + rest
            && Step(d, name, prefix + "$&").text == DraftLine(name, prefix + "$&") + rest
            && StepAsWritten(d, name, prefix + "$&").text != Step(d, name, prefix + "$&").text
  {
    var oldLine := DraftLine(name, oldValue);
    StepsAtStart(name, oldValue, prefix + "$&", rest);
    AmpersandLine(name, prefix, oldLine, rest);
    assert |name + "='" + prefix + oldLine + "'" + rest| != |DraftLine(name, prefix + "$&") + rest|;
  }

  /** Both ways of recording, on a draft whose text starts with the
      variable's old line. */
  lemma StepsAtStart(name: string, oldValue: string, value: string, rest: string)
    requires oldValue != ""
    ensures var d := Draft(map[name := oldValue], DraftLine(name, oldValue) + rest);
            && StepAsWritten(d, name, value).text == Substitution(DraftLine(name, value), DraftLine(name, oldValue), [], rest) + rest
            && Step(d, name, value).text == DraftLine(name, value) + rest
  {
    LineAtStart(DraftLine(name, oldValue), rest);
  }

  /** A text that starts with a line has its first occurrence at 0. */
  lemma LineAtStart(line: string, rest: string)
    ensures IndexOf(line + rest, line) == Some(0)
    ensures (line + rest)[..0] == [] && (line + rest)[|line|..] == rest
  {
    assert OccursAt(line + rest, line, 0);
  }

  /** The new line for a value ending in `$&`, expanded with `matched` as
      the matched text at the start of the draft. */
  lemma AmpersandLine(name: string, prefix: string, matched: string, after: string)
    requires '$' !in name && '$' !in prefix
    ensures Substitution(DraftLine(name, prefix + "$&"), matched, [], after) == name + "='" + prefix + matched + "'"
  {
    var line := DraftLine(name, prefix + "$&");
    assert line == (name + "='" + prefix) + ("$&" + "'");
    SubstitutionPlainPrefix(name + "='" + prefix, "$&" + "'", matched, [], after);
    assert Substitution("$&" + "'", matched, [], after) == matched + Substitution("'", matched, [], after);
    assert Substitution("'", matched, [], after) == "'";
  }

  /** The draft after the prompts for `configs`, answered with `typed[k]`
      for the k-th one; `false` when some prompt never got an answer, the
      draft then being as the earlier answers left it. */
  function Run(d: Draft, configs: seq<VarConfig>, oldDotenv: map<string, string>, typed: seq<seq<string>>): (Draft, bool)
    requires |typed| == |configs|
    decreases |configs|
  {
    if configs == [] then (d, true)
    else
      var config := configs[0];
      match Capture(EffectiveDefault(PassedDefault(d.values, oldDotenv, config), config), typed[0])
      case None => (d, false)
      case Some(value) => Run(StepAsWritten(d, config.name, value), configs[1..], oldDotenv, typed[1..])
  }

  /** `Run` with the corrected `Step`, which writes each value as typed. */
  function RunCorrected(d: Draft, configs: seq<VarConfig>, oldDotenv: map<string, string>, typed: seq<seq<string>>): (Draft, bool)
    requires |typed| == |configs|
    decreases |configs|
  {
    if configs == [] then (d, true)
    else
      var config := configs[0];
      match Capture(EffectiveDefault(PassedDefault(d.values, oldDotenv, config), config), typed[0])
      case None => (d, false)
      case Some(value) => RunCorrected(Step(d, config.name, value), configs[1..], oldDotenv, typed[1..])
  }

  /** No value in `m` holds a `$`. */
  predicate ValuesWithoutDollar(m: map<string, string>) {
    forall k | k in m :: '$' !in m[k]
  }

  /** No name, configured default, old dotenv value or typed line holds a `$`. */
  predicate InputsWithoutDollar(configs: seq<VarConfig>, oldDotenv: map<string, string>, typed: seq<seq<string>>) {
    && (forall k | 0 <= k < |configs| :: '$' !in configs[k].name && (configs[k].fallback.Some? ==> '$' !in configs[k].fallback.value))
    && ValuesWithoutDollar(oldDotenv)
    && (forall k, j | 0 <= k < |typed| && 0 <= j < |typed[k]| :: '$' !in typed[k][j])
  }

  /** When nothing the user or the files supply holds a `$`, the loop as
      written and the corrected one produce the same draft. */
  lemma {:induction false} RunAgreesWithoutDollar(d: Draft, configs: seq<VarConfig>, oldDotenv: map<string, string>, typed: seq<seq<string>>)
    requires |typed| == |configs|
    requires ValuesWithoutDollar(d.values) && InputsWithoutDollar(configs, oldDotenv, typed)
    ensures Run(d, configs, oldDotenv, typed) == RunCorrected(d, configs, oldDotenv, typed)
    decreases |configs|
  {
    if configs != [] {
      var config := configs[0];
      var defaultValue := EffectiveDefault(PassedDefault(d.values, oldDotenv, config), config);
      assert defaultValue.Some? ==> '$' !in defaultValue.value;
      match Capture(defaultValue, typed[0])
      case None =>
      case Some(value) =>
        assert '$' !in value by {
          if value !in typed[0] {
            assert Some(value) == defaultValue;
          } else {
            var j :| 0 <= j < |typed[0]| && typed[0][j] == value;
          }
        }
        StepAgreesWithoutDollar(d, config.name, value);
        var d' := Step(d, config.name, value);
        assert ValuesWithoutDollar(d'.values);
        assert InputsWithoutDollar(configs[1..], oldDotenv, typed[1..]) by {
          assert forall k | 0 <= k < |configs[1..]| :: configs[1..][k] == configs[k + 1];
          assert forall k | 0 <= k < |typed[1..]| :: typed[1..][k] == typed[k + 1];
        }
        RunAgreesWithoutDollar(d', configs[1..], oldDotenv, typed[1..]);
    }
  }

  /** The run from the `i`-th prompt on, after one step. */
  lemma RunAt(d: Draft, configs: seq<VarConfig>, oldDotenv: map<string, string>, typed: seq<seq<string>>, i: nat)
    requires |typed| == |configs| && i < |configs|
    ensures Run(d, configs[i..], oldDotenv, typed[i..]) ==
              match Capture(EffectiveDefault(PassedDefault(d.values, oldDotenv, configs[i]), configs[i]), typed[i])
              case None => (d, false)
              case Some(value) => Run(StepAsWritten(d, configs[i].name, value), configs[i + 1..], oldDotenv, typed[i + 1..])
  {
    assert configs[i..][1..] == configs[i + 1..] && typed[i..][1..] == typed[i + 1..];
  }

  /** The draft lines for answers typed directly, one per variable. */
  function Lines(configs: seq<VarConfig>, answers: seq<string>): string
    requires |answers| == |configs|
  {
    if configs == [] then "" else DraftLine(configs[0].name, answers[0]) + "\n" + Lines(configs[1..], answers[1..])
  }

  /** No variable among `configs` has a truthy value in `values`. */
  predicate NoTruthyDraft(values: map<string, string>, configs: seq<VarConfig>) {
    forall k | 0 <= k < |configs| :: !(configs[k].name in values && values[configs[k].name] != "")
  }

  /** Every prompt gets a non-empty first line. */
  predicate FirstLinesGiven(typed: seq<seq<string>>) {
    forall k | 0 <= k < |typed| :: |typed[k]| > 0 && typed[k][0] != ""
  }

  /** The first line typed at each prompt. */
  function FirstLines(typed: seq<seq<string>>): (answers: seq<string>)
    requires FirstLinesGiven(typed)
    ensures |answers| == |typed| && forall k | 0 <= k < |typed| :: answers[k] == typed[k][0]
  {
    seq(|typed|, k requires 0 <= k < |typed| => typed[k][0])
  }

  /** When no variable has a truthy draft value yet and each prompt gets a
      non-empty first line, every answer is appended as a line of its own
      and becomes the variable's draft value. */
  lemma {:induction false} RunAppendsLines(d: Draft, configs: seq<VarConfig>, oldDotenv: map<string, string>, typed: seq<seq<string>>)
    requires |typed| == |configs| && DistinctNames(configs)
    requires NoTruthyDraft(d.values, configs) && FirstLinesGiven(typed)
    ensures var r := Run(d, configs, oldDotenv, typed);
            && r.1
            && r.0.text == d.text + Lines(configs, FirstLines(typed))
            && forall k | 0 <= k < |configs| :: configs[k].name in r.0.values && r.0.values[configs[k].name] == FirstLines(typed)[k]
    decreases |configs|
  {
    if configs != [] {
      var config, value := configs[0], typed[0][0];
      var d' := StepAsWritten(d, config.name, value);
      RunAppendsFirst(d, configs, oldDotenv, typed);
      AppendTail(d, configs, typed);
      RunAppendsLines(d', configs[1..], oldDotenv, typed[1..]);
      var final := Run(d', configs[1..], oldDotenv, typed[1..]).0;
      forall k | 0 <= k < |configs|
        ensures configs[k].name in final.values && final.values[configs[k].name] == FirstLines(typed)[k]
      {
        if k == 0 {
          RunKeepsOthers(d', configs[1..], oldDotenv, typed[1..], config.name);
        } else {
          assert configs[k] == configs[1..][k - 1];
        }
      }
    }
  }

  /** The first prompt of such a run appends its answer. */
  lemma RunAppendsFirst(d: Draft, configs: seq<VarConfig>, oldDotenv: map<string, string>, typed: seq<seq<string>>)
    requires |typed| == |configs| && configs != []
    requires NoTruthyDraft(d.values, configs) && FirstLinesGiven(typed)
    ensures var d' := StepAsWritten(d, configs[0].name, typed[0][0]);
            && Run(d, configs, oldDotenv, typed) == Run(d', configs[1..], oldDotenv, typed[1..])
            && d'.text == d.text + DraftLine(configs[0].name, typed[0][0]) + "\n"
            && d'.values == d.values[configs[0].name := typed[0][0]]
  {
    var config := configs[0];
    assert Capture(EffectiveDefault(PassedDefault(d.values, oldDotenv, config), config), typed[0]) == Some(typed[0][0]);
  }

  /** What the rest of such a run starts from still meets its conditions. */
  lemma AppendTail(d: Draft, configs: seq<VarConfig>, typed: seq<seq<string>>)
    requires |typed| == |configs| && configs != [] && DistinctNames(configs)
    requires NoTruthyDraft(d.values, configs) && FirstLinesGiven(typed)
    ensures DistinctNames(configs[1..]) && FirstLinesGiven(typed[1..])
    ensures NoTruthyDraft(d.values[configs[0].name := typed[0][0]], configs[1..])
    ensures FirstLines(typed[1..]) == FirstLines(typed)[1..]
    ensures Lines(configs, FirstLines(typed)) == DraftLine(configs[0].name, typed[0][0]) + "\n" + Lines(configs[1..], FirstLines(typed[1..]))
    ensures forall k | 0 <= k < |configs[1..]| :: configs[1..][k].name != configs[0].name
  {
    assert forall k | 0 <= k < |configs[1..]| :: configs[1..][k] == configs[k + 1];
    assert forall k | 0 <= k < |typed[1..]| :: typed[1..][k] == typed[k + 1];
  }

  /** A variable none of the prompts is about keeps its draft value. */
  lemma {:induction false} RunKeepsOthers(d: Draft, configs: seq<VarConfig>, oldDotenv: map<string, string>, typed: seq<seq<string>>, name: string)
    requires |typed| == |configs|
    requires forall k | 0 <= k < |configs| :: configs[k].name != name
    ensures name in d.values ==> name in Run(d, configs, oldDotenv, typed).0.values &&
                                 Run(d, configs, oldDotenv, typed).0.values[name] == d.values[name]
    decreases |configs|
  {
    if configs != [] {
      var config := configs[0];
      match Capture(EffectiveDefault(PassedDefault(d.values, oldDotenv, config), config), typed[0])
      case None =>
      case Some(value) =>
        assert forall k | 0 <= k < |configs[1..]| :: configs[1..][k] == configs[k + 1];
        RunKeepsOthers(StepAsWritten(d, config.name, value), configs[1..], oldDotenv, typed[1..], name);
    }
  }

  /** The state `main` keeps while it configures: the draft values and the
      text of the draft file. */
  class Session {
    var values: map<string, string>
    var text: string

    /** The values parsed from an existing draft file and its text; both
        empty when there is no draft yet. */
    constructor (draftValues: map<string, string>, draftText: string)
      ensures values == draftValues && text == draftText
    {
      values := draftValues;
      text := draftText;
    }

    /** One iteration of `main`'s loop after the value was captured. */
    method Record(name: string, value: string)
      modifies this
      ensures Draft(values, text) == StepAsWritten(Draft(old(values), old(text)), name, value)
    {
      if name in values && values[name] != "" {
        text := ReplaceFirstJs(text, DraftLine(name, values[name]), DraftLine(name, value));
      } else {
        text := text + DraftLine(name, value) + "\n";
      }
      values := values[name := value];
    }

    /** `main`'s loop over the variables, with the lines typed at the k-th
        prompt given as `typed[k]`; `completed` is false when a prompt
        never got an answer. */
    method Configure(configs: seq<VarConfig>, oldDotenv: map<string, string>, typed: seq<seq<string>>)
      returns (completed: bool)
      requires |typed| == |configs|
      modifies this
      ensures (Draft(values, text), completed) == Run(Draft(old(values), old(text)), configs, oldDotenv, typed)
    {
      var i := 0;
      assert configs[0..] == configs && typed[0..] == typed;
      while i < |configs|
        invariant 0 <= i <= |configs|
        invariant Run(Draft(values, text), configs[i..], oldDotenv, typed[i..]) ==
                  Run(Draft(old(values), old(text)), configs, oldDotenv, typed)
      {
        var config := configs[i];
        var defaultValue := PassedDefault(values, oldDotenv, config);
        var value := Capture(EffectiveDefault(defaultValue, config), typed[i]);
        RunAt(Draft(values, text), configs, oldDotenv, typed, i);
        if value.None? {
          return false;
        }
        Record(config.name, value.value);
        i := i + 1;
      }
      return true;
    }
  }
}
