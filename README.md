# TypeScript Server Starter Kit: model layer, describe cache, build and configure scripts

This Dafny project models the core of a small REST backend written in
TypeScript. It covers five parts:

- **String utilities.** Positional `{n}` templating and the escaping of
  single quotes for SQL.
- **Table describe.** The column metadata that a MySQL `DESCRIBE` returns,
  and the `GlobalDescribe` lookup with its process-wide cache.
- **Model mapping.** `BaseModel.from` checks the keys of an incoming record
  against the table's describe, strips the `_x` key marker and coerces the
  values of boolean columns. `createQuerySafeClone` escapes string values
  for a query. `GenericModel` fills an instance from a record whose keys
  must be properties the instance already has.
- **Error records.** `RequestError` and `DatabaseError`.
- **Build and configure scripts.**
  - The build step rewrites path aliases such as `@utils` in compiled
    imports into relative `.js` paths.
  - The configure script reads the command line, chooses and shows each
    variable's default (masked for secrets), and keeps the draft dotenv file
    in step with each answer.

Each source file has its own module:

| module | file | source |
|---|---|---|
| `Wrappers` | wrappers.dfy | `Option`, `Result`, `Outcome` |
| `Text` | text.dfy | the JavaScript string built-ins the code relies on (`indexOf`, `replace` with a string pattern and its `$` patterns, `split`, `join`) |
| `StringUtils` | string_utils.dfy | src/utils/string.ts |
| `Constants` | constants.dfy | src/constants/constants.ts and the constants the core refers to |
| `Records` | records.dfy | JavaScript values, the `_x` suffix, loose `== 1` |
| `Errors` | errors.dfy | src/models/errors.ts |
| `Describe` | describe.dfy | src/database/describe.ts |
| `ModelsDescribe` | models_describe.dfy | src/models/describe.ts |
| `Base` | base_model.dfy | src/models/base.ts |
| `Generic` | generic_model.dfy | src/models/generic.ts |
| `Gulpfile` | gulpfile.dfy | gulpfile.js |
| `Configure` | configure.dfy | bin/configure.js |

**Purely computed code** is written as functions and lemmas. This covers
`format`, `escapeSingleQuotes`, the describe constructors, the error
constructors and the gulp helpers.

**Code that updates state** is written as classes:

- the instance that `BaseModel.from` fills, built in a static method that
  returns a fresh instance (its `createQuerySafeClone` returns a value and
  changes nothing);
- the `GenericModel` constructor, whose assignment loop has a `modifies`
  clause;
- the `GlobalDescribe` cache;
- the draft values and the draft file text that `main` in bin/configure.js
  updates.

**Loops** become methods with loop invariants. Each method's postcondition
ties it to a specification function, and the properties are proved about
that function. This covers the `forEach` over a record, the `forEach` over
the describe's fields, the argv loop of `getCliArgs` and the loop over the
variable configurations.

**Inputs the model takes as parameters.** Several things the code reads are
supplied from outside the model:

- what the `DESCRIBE` query yields for a table: rows, or a driver error;
- the describe `BaseModel.from` uses (what `GlobalDescribe.get` gave for the
  class name);
- the constants the code refers to but src/constants/constants.ts does not
  define (`DB.BOOLEAN_TYPE`, `ERROR_MESSAGES.FIELD_DOES_NOT_EXIST`,
  `MYSQL_ERROR_CODES.ER_UNKNOWN`, `HTTP_STATUS_CODES`), gathered in one
  `Settings` value;
- the directory of a compiled file (`dirname` of its path);
- the build's alias table and output directory;
- the lines the user types;
- the parsed `.env` and draft files, and the draft file's text.

**Where the code and the system's documentation disagree, the model
follows the code.** Where the code itself is evidently wrong, the model has
the code as written and, beside it, a corrected version (see Findings).

- The documentation describes the describe cache as filled once per table.
  In the code, `GlobalDescribe.get` never stores into its cache. This is
  modelled as written and logged under Findings.
- The documentation names a `FieldNotFound` error. The code throws a plain
  `Error` whose message is the formatted `FIELD_DOES_NOT_EXIST` text in
  `BaseModel.from`, and the unformatted constant in `GenericModel`.
- The documentation says boolean columns map `0` to false and `1` to true.
  The code uses loose `value == 1`: `'1'`, `' 01.0 '` and `true` give true.
  In this model every other value gives false. JavaScript also treats other
  numeral forms as 1 (`'1e0'`, `'0x1'`); these are left out, as listed
  under Left out.
- The configure loop rewrites a draft line with `String.prototype.replace`,
  which expands `$` patterns in the typed value. `Run` and
  `Session.Configure` model the loop as written; `RunCorrected` uses the
  literal replacement `Step`.

## Model

| member | source | states |
|---|---|---|
| StringUtils.DigitRun | src/utils/string.ts:3 | the `\d+` run at the start of a string: every character in it is a digit and the character after it is not |
| StringUtils.PlaceholderAt | src/utils/string.ts:3 | a `{digits}` match is at least three characters and lies within the string |
| StringUtils.PlaceholderAtShape | src/utils/string.ts:3 | a match is `{`, a maximal run of digits and `}`, two characters longer than the run, and names the run's decimal value; there is no match exactly when the string is too short, does not start with `{`, has no digit after it, or the run is not closed by `}` |
| StringUtils.FormatWithoutVariables | src/utils/string.ts:2-9 | with an empty argument array every placeholder is kept verbatim, so the template comes back unchanged |
| StringUtils.FormatWithoutPlaceholder | src/utils/string.ts:2-9 | a template with no `{digits}` anywhere is returned unchanged by `format` |
| StringUtils.FormatSkipsPlainText | src/utils/string.ts:2-9 | text without `{` is copied verbatim and the scan continues after it |
| StringUtils.DigitRunOfDigits | src/utils/string.ts:3 | the digit run of digits followed by a non-digit is exactly those digits |
| StringUtils.PlaceholderOfDigits | src/utils/string.ts:3-6 | `{digits}` at the start of a string matches, naming `parseInt(digits)` and spanning two characters more than the digits |
| StringUtils.FormatPlaceholder | src/utils/string.ts:3-8 | `{n}` becomes `variables[n]` when `n` indexes the array and is kept verbatim otherwise; formatting continues after the match |
| StringUtils.FormatTwoPlaceholders | src/utils/string.ts:2-9 | in a two-placeholder template the values are inserted verbatim and are not scanned again, even if they contain `{0}` or `{1}` |
| StringUtils.EscapeSingleQuotes | src/utils/string.ts:11-13 | the result is one character longer per quote; a string without quotes is unchanged; every quote in the result is preceded by a backslash |
| StringUtils.EscapeRoundTrip | src/utils/string.ts:11-13 | deleting the character before each quote of the escaped string gives back the input |
| Records.StripSuffix | src/models/base.ts:17 | one trailing `_x` is removed, and only when present: adding `_x` back gives the key |
| Records.StripSuffixInverse | src/models/generic.ts:9 | stripping a name with `_x` appended gives the name back, whatever it ends with |
| Records.LastBeforeStep | src/models/base.ts:16-28 | a key that is last for its field among the first `n + 1` keys is also last among the first `n`, and differs from key `n` |
| Records.Coerce | src/models/base.ts:24-26 | the coerced value of a boolean column is always a boolean |
| Records.LooseEqualityOfNonStrings | src/models/base.ts:25 | a number loosely equals 1 exactly when it is 1, a boolean exactly when it is true; null and undefined never do |
| Records.NumeralsOfOne | src/models/base.ts:25 | the strings `1` and `01` loosely equal 1 |
| Records.OtherNumerals | src/models/base.ts:25 | the strings `10` and `-1` do not loosely equal 1 |
| Records.CoerceReadsColumnValue | src/models/base.ts:25 | stored `1`/`0` read back as true/false, booleans pass through, and coercion is idempotent |
| Errors.NewRequestError | src/models/errors.ts:4-14 | code and message are kept; a status is set exactly when the code is in the status table, and it is the table's entry |
| Errors.NewDatabaseError | src/models/errors.ts:26-43 | a driver error is copied field by field; a message becomes a fatal error with the unknown code, errno -1, name `DatabaseError` and no syscall, SQL state or stack |
| Errors.DatabaseErrorRewrap | src/models/errors.ts:33-42 | wrapping a `DatabaseError` again changes nothing |
| Describe.NewFieldDescribe | src/database/describe.ts:39-43 | name and type are copied from `Field` and `Type`; nillable holds exactly when `Null` is `YES` |
| Describe.FieldDescribeRoundTrip | src/database/describe.ts:39-43 | a field describe rebuilt from its own row is the same describe |
| Describe.RowRoundTrip | src/database/describe.ts:42 | a row with `Null` equal to `YES` or `NO` is rebuilt exactly; any other `Null` text reads as not nillable |
| Describe.DescribeFromRows | src/database/describe.ts:17-20 | the describe names the table asked for and has one field per row, in row order |
| Describe.DescribeKeepsRows | src/database/describe.ts:17-20 | reading the fields back gives the rows one-to-one, in order |
| Describe.GlobalDescribe.constructor | src/database/describe.ts:4 | the cache starts empty |
| Describe.GlobalDescribe.Get | src/database/describe.ts:11-21 | the query is issued exactly on a miss; a hit answers from the cache; a miss builds the describe from the rows or passes the failure on; the cache is never modified |
| Describe.GlobalDescribe.GetCached | src/database/describe.ts:11-21 | corrected `get`: as `Get`, and a successful miss stores its describe (nothing else changes) |
| Describe.RepeatedGetQueriesTwice | src/database/describe.ts:11-21 | with `get` as written, two requests for a table that misses both issue the query |
| Describe.RepeatedGetCachedQueriesOnce | src/database/describe.ts:11-21 | with the corrected cache, the second request is answered from the cache with the describe the first built |
| ModelsDescribe.Fetch | src/models/describe.ts:27-35 | `fetch` passes a failed query on; otherwise it yields the table asked for, one field per row with name, type and nillable taken from that row |
| ModelsDescribe.FetchKeepsRows | src/models/describe.ts:27-35 | the fetched describe gives the rows back when every `Null` is `YES` or `NO` |
| Base.FindField | src/models/base.ts:19 | `find` yields a field exactly when some field has the name, and the one it yields has that name |
| Base.FindFieldIsFirst | src/models/base.ts:19 | the field `find` yields is the first with that name |
| Base.BuiltStep | src/models/base.ts:16-28 | storing one more entry's value extends the built state by that entry |
| Base.StoredValueCases | src/models/base.ts:23-27 | on a boolean column the stored value is a boolean: booleans pass through, `1` becomes true and `0` false; on any other column the value is stored as given |
| Base.QuerySafe | src/models/base.ts:66-69 | a clone value is a string exactly when the original is; non-strings are copied; a string grows by one character per quote |
| Base.QuerySafeRoundTrip | src/models/base.ts:66-68 | unescaping a string clone gives back the original, and no quote in it stands unescaped |
| Base.BaseModel.constructor | src/models/base.ts:15 | a new instance holds the properties its class declares with initial values |
| Base.BaseModel.From | src/models/base.ts:13-30 | fails exactly when some key, `_x` stripped, names no field, with the message formatted from the first such key (as given) and the class name; otherwise the instance is new and holds the declared properties plus the named fields; each named field holds the last value given for it, coerced for boolean columns; untouched declared properties keep their values |
| Base.BaseModel.CreateQuerySafeClone | src/models/base.ts:58-72 | the clone holds exactly the described fields whose value is neither null nor undefined, strings escaped and other values copied; the model is unchanged |
| Generic.AssignedPrefixKeys | src/models/generic.ts:8-14 | assignment adds exactly the named fields, and none when all were properties already |
| Generic.AssignedPrefixUntouched | src/models/generic.ts:8-14 | a property no key names keeps its value |
| Generic.AssignedPrefixLastWins | src/models/generic.ts:8-14 | a field holds the value of the last key that names it |
| Generic.GenericModel.constructor | src/models/generic.ts:6-7 | the instance starts with the properties present before the constructor body runs |
| Generic.GenericModel.Assign | src/models/generic.ts:6-15 | fails, with the unformatted message, exactly when some stripped key is not among the property names taken at the start; the keys before the first such key have been assigned; otherwise every entry is assigned in order |
| Gulpfile.AliasName | gulpfile.js:25 | the name is the path kept as it is, or the path without its leading `@`, and possibly without one trailing slash-and-wildcard |
| Gulpfile.AliasNameStrips | gulpfile.js:25 | `@name` with or without a trailing slash-and-wildcard becomes `name`; a string not starting with `@` is kept |
| Gulpfile.AddDotJS | gulpfile.js:38-47 | the result is empty exactly for a missing or empty path, and otherwise ends in `.js` |
| Gulpfile.AddDotJSCases | gulpfile.js:42-46 | a trailing `.ts` becomes `.js`, a `.js` path is unchanged, any other path gets `.js` appended |
| Gulpfile.AddDotJSIdempotent | gulpfile.js:38-47 | applying `addDotJS` twice is the same as applying it once |
| Gulpfile.TrailingWildcardCases | gulpfile.js:62 | one trailing `/*`, `/` or `*` is removed (a bare `*` only when no `/` precedes it), and a path ending in none of them is kept |
| Gulpfile.LocalPathOfCases | gulpfile.js:62 | `dir` or `./dir` followed by `/*`, `/`, `*` or nothing stands for `dir`, so `src/utils/*` and `./src/utils/` both give `src/utils` and a plain `src/utils` is kept |
| Gulpfile.FindAlias | gulpfile.js:57 | the alias found contains `rawAlias` and is the first that does; none is found exactly when no alias contains it |
| Gulpfile.ModulePathPrefixSteps | gulpfile.js:66-70 | the prefix is `./` plus one `../` per `/` in the directory with the output directory cut out; for a directory inside the output directory, that is per `/` after it |
| Gulpfile.GetLocalPathCases | gulpfile.js:55-72 | the local path is empty exactly when no alias contains `rawAlias`, the alias found is the empty string, it maps to no path, or the path strips to nothing; otherwise it is the prefix followed by the stripped path |
| Gulpfile.ImportStatement | gulpfile.js:87-93 | the statement starts with `import ` and ends with the quoted specifier; a truthy variable name gives the `import name from` form, otherwise `import 'spec'` |
| Gulpfile.RewrittenSpecifier | gulpfile.js:83-93 | without a local path: alias plus module path with `.js`; with one: local path plus module path with `.js`, or the local path with `.js` when there is no module path; ends in `.js` unless both are empty |
| Gulpfile.HandleReplace | gulpfile.js:82-95 | the statement is `import v from 'spec'` or, for a missing or empty variable name, `import 'spec'`, where `spec` is the rewritten specifier for the local path found (or the kept alias when none is); it ends in `.js'` unless neither a local nor a module path exists |
| Gulpfile.HandleReplaceKeepsAlias | gulpfile.js:55-60 | when no alias contains `rawAlias`, or the one found is empty, the import keeps `rawAlias` followed by the module path with `.js` |
| Configure.GetCliArgs | bin/configure.js:111-146 | the loop's outcome is the argument reading `ParseFrom` from index 2 with `dev` |
| Configure.NoArgumentsMeansDev | bin/configure.js:116-119 | without arguments of the user's own, the environment is `dev` |
| Configure.ParsedEnvironmentIsAllowed | bin/configure.js:129-133 | an environment the reading settles on is always `dev`, `staging` or `production` |
| Configure.SplitKeyValue | bin/configure.js:120 | `flag=x` splits into the flag and `x` |
| Configure.InlineEnvironment | bin/configure.js:122-133 | `-e=x` and `--environment=x` choose an allowed `x` and fail on any other |
| Configure.SeparateEnvironment | bin/configure.js:124-133 | `-e x` takes the next argument; it fails when that is missing or not allowed |
| Configure.ReadingContinues | bin/configure.js:119-144 | arguments appended after a complete reading are read from the environment that reading chose |
| Configure.LastEnvironmentFlag | bin/configure.js:122-133 | a final `-e=x` with an allowed `x` ends the reading with `x` |
| Configure.LaterFlagOverrides | bin/configure.js:119-133 | a later `-e=x` overrides whatever was chosen before it |
| Configure.HelpAndUnknownFlags | bin/configure.js:135-142 | `-h`/`--help` after a complete reading gives Help whatever follows it; an unknown flag gives an invalid-argument outcome naming it, whatever follows it |
| Configure.VariableConfigsShape | bin/configure.js:55-90 | seven variables with distinct names; exactly the MySQL password and the ReCaptcha secret key are masked |
| Configure.DefaultChoice | bin/configure.js:239 | a non-empty draft value wins; an empty draft value hides the old dotenv value and, through the `||` fallback of `captureEnvironmentVariable` (bin/configure.js:155), falls back to the configured default; without a draft value, a non-empty old value, else the configured default |
| Configure.EffectiveDefault | bin/configure.js:155 | the default offered is the one passed in or the configured one; a truthy passed default is kept; it is truthy exactly when one of the two is |
| Configure.EffectiveDefaultStable | bin/configure.js:155-169 | the fallback applied again on a repeated prompt offers the same default |
| Configure.Mask | bin/configure.js:156 | the masked default is as long as the default and is `*` at every character except line terminators |
| Configure.PromptShowsDefault | bin/configure.js:156-161 | no default or an empty one shows only the label; an unmasked default is shown as it is; two masked defaults of equal length without line terminators give the same prompt |
| Configure.PromptShowsMask | bin/configure.js:156-161 | a non-empty masked default is shown as its mask, one `*` per character, between ` (default=` and `): ` |
| Configure.Capture | bin/configure.js:162-172 | a non-empty first line is the answer; an empty first line takes a truthy default; otherwise the prompt asks again, so the settled value is non-empty and is the default or a typed line, and there is none exactly when the lines run out or the default is falsy and every line is empty |
| Configure.StepAsWritten | bin/configure.js:241-250 | the draft value becomes the new value; without a truthy old value a line `NAME='value'` is appended; otherwise the first occurrence of the old line is replaced by the new line with its `$` patterns expanded against that occurrence, and a missing old line leaves the text unchanged |
| Configure.Step | bin/configure.js:241-250 | corrected step: the draft value becomes the new value; without a truthy old value a line `NAME='value'` is appended; otherwise the first occurrence of the old line is replaced literally by the new one, and a missing old line leaves the text unchanged |
| Configure.StepAgreesWithoutDollar | bin/configure.js:244 | for values without `$`, `replace` as written and the literal replacement agree |
| Configure.SubstitutionPlainPrefix | bin/configure.js:244 | replacement text without `$` passes through the `$`-pattern expansion unchanged |
| Configure.DollarAmpersandCorruptsDraft | bin/configure.js:244 | a new value ending in `$&` makes the as-written text contain the old line inside the new one; the literal replacement writes the value as typed |
| Configure.RunAgreesWithoutDollar | bin/configure.js:238-251 | when no draft value, default or typed line contains `$`, the loop as written and the corrected loop leave the same draft |
| Configure.RunAppendsLines | bin/configure.js:238-251 | for the loop as written, when no variable has a truthy draft value and every prompt gets a non-empty line, each answer is appended as its own line and becomes that variable's draft value |
| Configure.RunKeepsOthers | bin/configure.js:238-251 | a variable none of the prompts asks about keeps its draft value |
| Configure.Session.constructor | bin/configure.js:219-228 | the session starts from the parsed draft values and the draft text |
| Configure.Session.Record | bin/configure.js:241-250 | one recording updates values and text as `StepAsWritten` describes, `$` patterns included |
| Configure.Session.Configure | bin/configure.js:238-251 | the loop leaves the draft as `Run` (the loop as written) describes it, and reports whether every prompt got an answer |
| Text.IndexOf | gulpfile.js:67 | `indexOf` yields the first occurrence, and none exactly when the pattern does not occur |
| Text.ReplaceFirstJs | bin/configure.js:244 | without an occurrence the text is unchanged; otherwise the text before the first occurrence and the text after it are kept around the expanded replacement |
| Text.SubstitutionWithoutDollar | bin/configure.js:244 | replacement text without `$` is inserted as it is |
| Text.ReplaceFirstJsWithoutDollar | bin/configure.js:244 | `replace` with a replacement without `$` is the literal first-occurrence replacement |

## Left out

- I/O is not modelled: console output, `fs` reads, writes and removal, readline prompting, the masked `_writeToOutput` echo, `process.exit`, the exit listener, and gulp's streams and tasks. The model covers the values these operations read and produce.
- The MySQL connection and the `DESCRIBE` query are not modelled. The query's outcome is a parameter.
- Base.BaseModel.From: does not model `console.log`, the `async` wrapper, or the `GlobalDescribe.get(this.name)` call; the describe is a parameter.
- `getDescribe` (src/models/base.ts:36-46) is left out. It only forwards to `GlobalDescribe.get`, which is modelled.
- Reflection is not modelled. `Object.getOwnPropertyNames(this)`, `new this()` and the class name are parameters: the declared properties and `className`.
- Whether TypeScript class fields are own properties when a constructor runs depends on the compiler settings. Those settings are not part of this model.
- Prototype-chain properties are not modelled. A key such as `constructor` reached through `in`, or through `this[name]` in `createQuerySafeClone`, is not an own property here.
- The regular-expression matching of import lines in gulpfile.js (lines 30-31 and 101-108) is not modelled, and neither is the `|`-joined alternation of alias names at gulpfile.js:25 that only feeds those regular expressions; the per-alias rewrite on that line is `Gulpfile.AliasName`. `Gulpfile.HandleReplace` takes the captured groups as parameters; an unmatched group is `''` or a missing variable name.
- Gulpfile.GetLocalPathCases: does not model `dirname`, which is Node's path library; the file's directory is a parameter.
- Configure.Mask: strings are sequences of Unicode scalar values, not UTF-16 code units. A character outside the Basic Multilingual Plane is one `*` here but two in the source.
- Configure.PromptShowsDefault: equal length is counted in Unicode scalar values, not UTF-16 code units, for the reason given for Configure.Mask.
- Configure.GetCliArgs: does not model the failure paths as written. On the help, invalid-environment and invalid-argument paths, `printHelp` and the error message refer to `ENVIRONMENTS`, which is never defined, so they end in a ReferenceError rather than the intended exit. The model records only the outcome.
- The model does not parse dotenv files (`dotenv.parse`); the parsed maps are parameters. It also does not model the final copy of the draft to `.env.<environment>`, which is an unchanged copy of the draft text.
- Configure.VariableConfigsShape: does not model `path.resolve('logs')`, which depends on the working directory; it is the parameter `logsPath`.
- Configure.Capture: a prompt that never gets a non-empty answer waits forever in the source. Here it yields `None` once the typed lines run out.
- Records.Coerce: loose `== 1` on a string is modelled only for decimal numerals. Other numeral forms that equal 1 are left out: exponent (`1e0`), hexadecimal, binary, octal, and rounding of long fractions. Numbers are integers here, so `Num(1)` stands for every JavaScript value numerically equal to 1. Dates and other objects are not modelled.
- StringUtils.FormatPlaceholder: `parseInt` of a very long digit run loses precision in JavaScript. Here the index is exact. Either way, such an index is outside any argument array.

## Findings

| source | as written | input that shows it | evidently intended | confidence | as-written member | corrected member |
|---|---|---|---|---|---|---|
| src/database/describe.ts:11-21 | `get` reads `cache` but never stores into it, so every call queries again | two calls `get('User')` in one process: both issue `DESCRIBE` | a successful query stores its describe, so later calls are answered from the cache | not executed; high (the cache is otherwise dead and the documentation describes it as filled once per table) | Describe.RepeatedGetQueriesTwice | Describe.RepeatedGetCachedQueriesOnce |
| bin/configure.js:244 | the draft line is rewritten with `String.prototype.replace` and a string replacement, so `$&`, `$$`, `` $` `` and `$'` in the typed value are expanded | a draft `MYSQL_PASSWORD='old'` and a new password `pa$&`: the file gets `MYSQL_PASSWORD='paMYSQL_PASSWORD='old''` | the new line is written as typed: `MYSQL_PASSWORD='pa$&'` | not executed; medium (only when re-running with a draft that already has the variable) | Configure.DollarAmpersandCorruptsDraft | Configure.Step |
