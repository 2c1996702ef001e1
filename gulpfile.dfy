/** The import rewriting of the `fix-imports` build task (gulpfile.js):
    path aliases such as `@utils` (declared with a trailing wildcard) in compiled import statements become
    relative paths ending in `.js`. */
module Gulpfile {
  import opened Wrappers
  import opened Text

  /** The build's TypeScript settings the rewriting reads: the path aliases
      in declaration order, what each maps to, and the output directory. */
  datatype Project = Project(aliases: seq<string>, paths: map<string, seq<string>>, outDir: string)

  predicate HasLineTerminator(s: string) {
    exists i | 0 <= i < |s| :: IsLineTerminator(s[i])
  }

  /** The alias name used in the import pattern: the leading `@` and one
      trailing slash-and-wildcard are dropped. The pattern only matches a whole string that starts
      with `@` and holds no line terminator; any other string is kept. */
  function AliasName(p: string): (r: string)
    ensures r == p || (IsPrefix("@", p) && (r == p[1..] || r + "/*" == p[1..]))
  {
    if |p| == 0 || p[0] != '@' || HasLineTerminator(p) then p
    else if IsSuffix("/*", p[1..]) then p[1..|p| - 2]
    else p[1..]
  }

  /** An alias `@name`, with or without a trailing slash-and-wildcard, gives back `name`, and a string that
      does not start with `@` is left alone. */
  lemma AliasNameStrips(name: string)
    requires !HasLineTerminator(name)
    ensures AliasName("@" + name + "/*") == name
    ensures !IsSuffix("/*", name) ==> AliasName("@" + name) == name
    ensures |name| > 0 && name[0] != '@' ==> AliasName(name) == name
  {
    var p := "@" + name + "/*";
    assert !HasLineTerminator(p) by {
      forall i | 0 <= i < |p| ensures !IsLineTerminator(p[i]) {
        if 1 <= i <= |name| { assert p[i] == name[i - 1]; }
      }
    }
    assert p[1..] == name + "/*";
    assert p[1..|p| - 2] == name;
    var q := "@" + name;
    assert !HasLineTerminator(q) by {
      forall i | 0 <= i < |q| ensures !IsLineTerminator(q[i]) {
        if 1 <= i { assert q[i] == name[i - 1]; }
      }
    }
    assert q[1..] == name;
  }

  /** `addDotJS(filePath)`: `''` for a missing or empty path; otherwise a
      trailing `.ts` becomes `.js`, and `.js` is appended unless the path
      then ends with it. */
  function AddDotJS(filePath: Option<string>): (r: string)
    ensures r == "" <==> filePath.None? || filePath.value == ""
    ensures r != "" ==> IsSuffix(".js", r)
  {
    if filePath.None? || |filePath.value| == 0 then ""
    else
      var p := filePath.value;
      var q := if IsSuffix(".ts", p) then p[..|p| - 3] + ".js" else p;
      if IsSuffix(".js", q) then q else q + ".js"
  }

  /** The three ways a non-empty path is given its `.js` ending. */
  lemma AddDotJSCases(p: string)
    requires p != ""
    ensures IsSuffix(".ts", p) ==> AddDotJS(Some(p)) == p[..|p| - 3] + ".js"
    ensures IsSuffix(".js", p) ==> AddDotJS(Some(p)) == p
    ensures !IsSuffix(".ts", p) && !IsSuffix(".js", p) ==> AddDotJS(Some(p)) == p + ".js"
  {
    if IsSuffix(".ts", p) {
      var q := p[..|p| - 3] + ".js";
      assert q[|q| - 3..] == ".js";
    }
  }

  /** Adding the `.js` ending twice changes nothing more. */
  lemma AddDotJSIdempotent(p: Option<string>)
    ensures AddDotJS(Some(AddDotJS(p))) == AddDotJS(p)
  {
    var r := AddDotJS(p);
    if r != "" {
      assert r[|r| - 3..] == ".js";
      assert r[|r| - 2] == 'j';
      assert !IsSuffix(".ts", r);
    }
  }

  /** One trailing slash-and-wildcard, else one trailing `/` or `*`, is
      removed from a mapped path. */
  function StripTrailingWildcard(p: string): string {
    if IsSuffix("/*", p) then p[..|p| - 2]
    else if IsSuffix("/", p) || IsSuffix("*", p) then p[..|p| - 1]
    else p
  }

  /** A leading `./` is removed from a mapped path. */
  function StripLeadingDotSlash(p: string): string {
    if IsPrefix("./", p) then p[2..] else p
  }

  /** The local path an alias mapping stands for. */
  function LocalPathOf(mapped: string): (r: string)
    ensures OccursAt(mapped, r, 0) || OccursAt(mapped, r, 2)
  {
    StripLeadingDotSlash(StripTrailingWildcard(mapped))
  }

  /** A trailing slash-and-wildcard comes off. */
  lemma StripSlashWildcard(base: string)
    ensures StripTrailingWildcard(base + "/*") == base
  {
    var p := base + "/*";
    assert p[|p| - 2..] == "/*";
    assert p[..|p| - 2] == base;
  }

  /** A trailing `/` comes off. */
  lemma StripSlash(base: string)
    ensures StripTrailingWildcard(base + "/") == base
  {
    var q := base + "/";
    assert q[|q| - 1] == '/';
    assert q[|q| - 1..] == "/";
    assert q[..|q| - 1] == base;
  }

  /** A trailing `*` comes off when no `/` precedes it. */
  lemma StripWildcard(base: string)
    requires !IsSuffix("/", base)
    ensures StripTrailingWildcard(base + "*") == base
  {
    var t := base + "*";
    assert t[|t| - 1..] == "*";
    assert t[..|t| - 1] == base;
    if |base| > 0 {
      assert t[|t| - 2] == base[|base| - 1];
      assert base[|base| - 1..] == [base[|base| - 1]];
    }
  }

  /** One trailing slash-and-wildcard, `/` or `*` comes off, and a path
      ending in none of them is kept. */
  lemma TrailingWildcardCases(base: string)
    ensures StripTrailingWildcard(base + "/*") == base
    ensures StripTrailingWildcard(base + "/") == base
    ensures !IsSuffix("/", base) ==> StripTrailingWildcard(base + "*") == base
    ensures !IsSuffix("/", base) && !IsSuffix("*", base) ==> StripTrailingWildcard(base) == base
  {
    StripSlashWildcard(base);
    StripSlash(base);
    if !IsSuffix("/", base) {
      StripWildcard(base);
    }
  }

  /** A mapping `dir` or `./dir`, followed by a slash and a wildcard, a
      slash, a wildcard or nothing, stands for `dir`. A bare `*` or no ending is taken only when the
      path before it does not end in `/`, and without the `./` the
      directory itself must not start with `./`. */
  lemma LocalPathOfCases(lead: string, dir: string)
    requires lead == "" || lead == "./"
    requires lead == "./" || !IsPrefix("./", dir)
    ensures LocalPathOf(lead + dir + "/*") == dir
    ensures LocalPathOf(lead + dir + "/") == dir
    ensures !IsSuffix("/", lead + dir) ==> LocalPathOf(lead + dir + "*") == dir
    ensures !IsSuffix("/", lead + dir) && !IsSuffix("*", lead + dir) ==> LocalPathOf(lead + dir) == dir
  {
    TrailingWildcardCases(lead + dir);
    if lead == "./" {
      assert IsPrefix("./", lead + dir);
      assert (lead + dir)[2..] == dir;
    } else {
      assert lead + dir == dir;
    }
  }

  /** `pathAliases.find((alias) => alias.includes(rawAlias))`: the first
      alias, in the order of the `paths` keys, that contains `rawAlias`. */
  function FindAlias(aliases: seq<string>, rawAlias: string): (r: Option<string>)
    ensures r.Some? ==> r.value in aliases && Contains(r.value, rawAlias)
    ensures r.Some? ==> exists j | 0 <= j < |aliases| :: aliases[j] == r.value &&
                          forall i | 0 <= i < j :: !Contains(aliases[i], rawAlias)
    ensures r.None? <==> forall i | 0 <= i < |aliases| :: !Contains(aliases[i], rawAlias)
  {
    if aliases == [] then None
    else if Contains(aliases[0], rawAlias) then
      Some(aliases[0])
    else
      var r := FindAlias(aliases[1..], rawAlias);
      assert forall i | 1 <= i < |aliases| :: aliases[i] == aliases[1..][i - 1];
      assert r.Some? ==> exists j | 0 <= j < |aliases| :: aliases[j] == r.value &&
                           forall i | 0 <= i < j :: !Contains(aliases[i], rawAlias) by {
        if r.Some? {
          var j :| 0 <= j < |aliases[1..]| && aliases[1..][j] == r.value &&
                   forall i | 0 <= i < j :: !Contains(aliases[1..][i], rawAlias);
          assert aliases[j + 1] == r.value;
          assert forall i | 0 <= i < j + 1 :: !Contains(aliases[i], rawAlias) by {
            forall i | 0 <= i < j + 1 ensures !Contains(aliases[i], rawAlias) {
              if i > 0 { assert aliases[i] == aliases[1..][i - 1]; }
            }
          }
        }
      }
      r
  }

  /** `paths[pathAlias]?.[0]`: the first path an alias maps to. */
  function MappedPath(project: Project, alias: string): Option<string> {
    if alias in project.paths && |project.paths[alias]| > 0 then Some(project.paths[alias][0]) else None
  }

  /** The `./` and `../` steps leading from a compiled file's directory,
      taken relative to the output directory, back to the output directory:
      the directory with the output directory cut out is split at `/`, the
      first segment becomes `./` and every further one `../`. */
  function ModulePathPrefix(fileDir: string, outDir: string): string {
    var segments := Split(ReplaceFirst(fileDir, outDir, ""), '/');
    Join(seq(|segments|, i => if i == 0 then "./" else "../"), "")
  }

  lemma {:induction false} JoinUpSteps(n: nat)
    ensures Join(seq(n, i => "../"), "") == Repeat("../", n)
  {
    if n > 1 {
      JoinUpSteps(n - 1);
      assert seq(n, i => "../")[1..] == seq(n - 1, i => "../");
    }
  }

  /** The prefix is `./` followed by one `../` per `/` in the directory
      relative to the output directory; for a directory inside the output
      directory, that relative part is what follows the output directory. */
  lemma ModulePathPrefixSteps(fileDir: string, outDir: string)
    ensures ModulePathPrefix(fileDir, outDir) == "./" + Repeat("../", CountChar(ReplaceFirst(fileDir, outDir, ""), '/'))
    ensures forall rel :: fileDir == outDir + rel ==> ModulePathPrefix(fileDir, outDir) == "./" + Repeat("../", CountChar(rel, '/'))
  {
    var rel := ReplaceFirst(fileDir, outDir, "");
    var n := CountChar(rel, '/');
    var steps := seq(n + 1, i => if i == 0 then "./" else "../");
    assert |Split(rel, '/')| == n + 1;
    JoinUpSteps(n);
    if n > 0 {
      assert steps[1..] == seq(n, i => "../");
    } else {
      assert steps == ["./"];
    }
    forall rel' | fileDir == outDir + rel'
      ensures rel == rel'
    {
      assert OccursAt(fileDir, outDir, 0);
      assert fileDir[|outDir|..] == rel';
    }
  }

  /** `getLocalPath(rawAlias, filePath)` for a file in directory `fileDir`:
      `''` unless the first alias containing `rawAlias` is a non-empty key
      and maps to a path that stays non-empty once stripped; then the steps
      back to the output directory followed by that path. */
  function GetLocalPath(rawAlias: string, fileDir: string, project: Project): string {
    match FindAlias(project.aliases, rawAlias)
    case None => ""
    case Some(alias) =>
      if alias == "" then ""
      else
      match MappedPath(project, alias)
      case None => ""
      case Some(mapped) =>
        var localPath := LocalPathOf(mapped);
        if localPath == "" then "" else ModulePathPrefix(fileDir, project.outDir) + localPath
  }

  /** The local path is empty exactly when no alias contains `rawAlias`,
      the alias found is the empty key (falsy), the alias maps to nothing,
      or its path strips to nothing; otherwise
      it is `./`, one `../` per level below the output directory, and the
      stripped path. */
  lemma GetLocalPathCases(rawAlias: string, fileDir: string, project: Project)
    ensures var alias := FindAlias(project.aliases, rawAlias);
            GetLocalPath(rawAlias, fileDir, project) == "" <==>
              alias.None? || alias.value == "" || MappedPath(project, alias.value).None? ||
              LocalPathOf(MappedPath(project, alias.value).value) == ""
    ensures var alias := FindAlias(project.aliases, rawAlias);
            alias.Some? && alias.value != "" && MappedPath(project, alias.value).Some? && LocalPathOf(MappedPath(project, alias.value).value) != "" ==>
              GetLocalPath(rawAlias, fileDir, project) ==
                "./" + Repeat("../", CountChar(ReplaceFirst(fileDir, project.outDir, ""), '/')) +
                LocalPathOf(MappedPath(project, alias.value).value)
  {
    ModulePathPrefixSteps(fileDir, project.outDir);
  }

  /** The import statement for a specifier: with a truthy variable name,
      `import name from 'spec'`; otherwise the side-effect form
      `import 'spec'`. */
  function ImportStatement(variableName: Option<string>, spec: string): (r: string)
    ensures IsPrefix("import ", r) && IsSuffix("'" + spec + "'", r)
    ensures variableName.Some? && variableName.value != "" ==> IsPrefix("import " + variableName.value + " from '", r)
    ensures variableName.None? || variableName.value == "" ==> r == "import '" + spec + "'"
  {
    if variableName.Some? && variableName.value != "" then
      "import " + variableName.value + " from '" + spec + "'"
    else
      "import '" + spec + "'"
  }

  /** The specifier `handleReplace` writes: without a local path the alias
      is kept, its `@` already dropped, and `.js` goes on the module path;
      with one, the alias is replaced by the local path and `.js` goes on
      the module path, or on the local path itself when there is no module
      path. The result ends in `.js` unless both paths are empty. */
  function RewrittenSpecifier(rawAlias: string, moduleProjectPath: string, localPath: string): (spec: string)
    ensures localPath == "" ==> spec == rawAlias + AddDotJS(Some(moduleProjectPath))
    ensures localPath != "" && moduleProjectPath != "" ==> spec == localPath + AddDotJS(Some(moduleProjectPath))
    ensures localPath != "" && moduleProjectPath == "" ==> spec == AddDotJS(Some(localPath))
    ensures localPath != "" || moduleProjectPath != "" ==> IsSuffix(".js", spec)
  {
    var modulePath := AddDotJS(Some(moduleProjectPath));
    var spec := if localPath == "" then rawAlias + modulePath
                else (if modulePath == "" then AddDotJS(Some(localPath)) else localPath) + modulePath;
    assert modulePath != "" ==> spec[|spec| - 3..] == modulePath[|modulePath| - 3..];
    assert modulePath == "" ==> spec == AddDotJS(Some(localPath)) || localPath == "";
    spec
  }

  /** `handleReplace(variableName, rawAlias, moduleProjectPath, filePath)`
      for a file in directory `fileDir`; a missing variable name is `None`.
      The statement is the import of the rewritten specifier, in the
      `import '...'` form when the variable name is missing or empty, and
      ends in `.js'` unless there is neither a local path nor a module path. */
  function HandleReplace(variableName: Option<string>, rawAlias: string, moduleProjectPath: string,
                         fileDir: string, project: Project): (r: string)
    ensures r == ImportStatement(variableName, RewrittenSpecifier(rawAlias, moduleProjectPath, GetLocalPath(rawAlias, fileDir, project)))
    ensures variableName.None? || variableName.value == "" ==>
              r == "import '" + RewrittenSpecifier(rawAlias, moduleProjectPath, GetLocalPath(rawAlias, fileDir, project)) + "'"
    ensures var localPath := GetLocalPath(rawAlias, fileDir, project);
            && IsSuffix("'" + RewrittenSpecifier(rawAlias, moduleProjectPath, localPath) + "'", r)
            && (localPath != "" || moduleProjectPath != "" ==> IsSuffix(".js'", r))
  {
    var localPath := GetLocalPath(rawAlias, fileDir, project);
    var spec := RewrittenSpecifier(rawAlias, moduleProjectPath, localPath);
    var r := ImportStatement(variableName, spec);
    assert localPath != "" || moduleProjectPath != "" ==> IsSuffix(".js'", r) by {
      if localPath != "" || moduleProjectPath != "" {
        QuotedJsSuffix(spec, r);
      }
    }
    r
  }

  /** When no alias contains `rawAlias`, or the one found is the empty key,
      the import keeps `rawAlias` and only the module path gets `.js`. */
  lemma HandleReplaceKeepsAlias(variableName: Option<string>, rawAlias: string, moduleProjectPath: string,
                                fileDir: string, project: Project)
    ensures var found := FindAlias(project.aliases, rawAlias);
            found.None? || found.value == "" ==>
              HandleReplace(variableName, rawAlias, moduleProjectPath, fileDir, project)
              == ImportStatement(variableName, rawAlias + AddDotJS(Some(moduleProjectPath)))
  {
    var found := FindAlias(project.aliases, rawAlias);
    if found.None? || found.value == "" {
      assert GetLocalPath(rawAlias, fileDir, project) == "";
    }
  }

  /** A quoted specifier ending in `.js` makes the statement end in `.js'`. */
  lemma QuotedJsSuffix(spec: string, r: string)
    requires IsSuffix(".js", spec) && IsSuffix("'" + spec + "'", r)
    ensures IsSuffix(".js'", r)
  {
    assert r[|r| - 4..] == ("'" + spec + "'")[|spec| - 2..];
  }
}
