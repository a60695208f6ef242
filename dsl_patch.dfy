/** The methods bundler-inject prepends to Bundler's Gemfile DSL
    (Bundler::Inject::DslPatch): `override_gem`, the `eval_gemfile` that
    also loads the neighbouring bundler.d directory, and that loader.

    The After* functions say what each step does to a builder's State; the
    Builder class performs the same steps in place and is proved to agree
    with them. */
module DslPatch {
  import opened Paths
  import opened Gemfile

  // ---------------------------------------------------------------------
  // override_gem

  /** When the last argument is an options Hash with a :path, that path is
      expanded against the calling file's directory; nothing else changes. */
  function RewritePath(args: Args, callingDir: string, home: string): (r: Args)
    ensures r.requirements == args.requirements
    ensures r.options.Some? <==> args.options.Some?
    ensures args.options.None? || "path" !in args.options.value ==> r == args
    ensures r.options.Some? ==> r.options.value.Keys == args.options.value.Keys
    ensures r.options.Some? ==> forall k :: k in r.options.value && k != "path" ==>
              r.options.value[k] == args.options.value[k]
    ensures args.options.Some? && "path" in args.options.value ==>
              r.options.value["path"] == ExpandPath(args.options.value["path"], callingDir, home)
    ensures IsAbsolute(callingDir) && IsAbsolute(home) && r.options.Some? && "path" in r.options.value ==>
              IsAbsolute(r.options.value["path"])
  {
    match args.options
    case Some(opts) =>
      if "path" in opts then Args(args.requirements, Some(opts["path" := ExpandPath(opts["path"], callingDir, home)]))
      else args
    case None => args
  }

  /** `override_gem(name, *args)` called from `callingFile`. */
  function AfterOverride(st: State, name: string, args: Args, callingFile: string, env: Env): (r: Run)
    ensures st.deps == [] ==> r == Run(st, None)
    ensures r.failure.Some? <==> st.deps != [] && forall j :: 0 <= j < |st.deps| ==> st.deps[j].name != name
    ensures r.failure.Some? ==> r == Run(st, Some(UnknownGem(name)))
    ensures r.failure.None? && st.deps != [] ==>
              && r.state.deps != [] && r.state.deps[|r.state.deps| - 1].name == name
              && r.state.deps[|r.state.deps| - 1] == Declare(name, RewritePath(args, Dirname(callingFile), env.home))
    ensures |r.state.deps| <= |st.deps| && |r.state.sources| <= |st.sources|
    ensures |st.log| <= |r.state.log| <= |st.log| + 1 && r.state.log[..|st.log|] == st.log
    ensures |r.state.log| > |st.log| ==>
              r.state.log[|st.log|] == OverrideWarning(name, RewritePath(args, Dirname(callingFile), env.home), callingFile)
    ensures env.railsEnv == Some("production") ==> r.state.log == st.log
    ensures r.failure.None? && st.deps != [] && env.railsEnv != Some("production") ==> |r.state.log| == |st.log| + 1
  {
    if st.deps == [] then Run(st, None)
    else match FirstNamed(st.deps, name)
      case None => Run(st, Some(UnknownGem(name)))
      case Some(i) =>
        WithoutDependencyShrinks(st.deps, i);
        Run(Replaced(st, i, name, args, callingFile, env), None)
  }

  /** The successful override of entry i: delete it, drop the git source of
      the entry `delete` returns, declare the rewritten arguments, warn. */
  function Replaced(st: State, i: nat, name: string, args: Args, callingFile: string, env: Env): (after: State)
    requires i < |st.deps|
  {
    var removed := st.deps[LastEqual(st.deps, st.deps[i], i)];
    var sources := if removed.source.Git? then Without(st.sources, removed.source) else st.sources;
    var rewritten := RewritePath(args, Dirname(callingFile), env.home);
    var log := if env.railsEnv == Some("production") then st.log
               else st.log + [OverrideWarning(name, rewritten, callingFile)];
    State(WithoutDependency(st.deps, st.deps[i]) + [Declare(name, rewritten)], sources, log)
  }

  /** Deleting an entry that is present shortens the list. */
  lemma {:induction false} WithoutDependencyShrinks(deps: seq<Dependency>, i: nat)
    requires i < |deps|
    ensures |WithoutDependency(deps, deps[i])| < |deps|
  {
    var n := |deps| - 1;
    if i < n {
      assert deps[..n][i] == deps[i];
      WithoutDependencyShrinks(deps[..n], i);
    }
  }

  /** With unique names, a successful override drops exactly the old entry,
      keeps every other entry in its original order, appends the new
      declaration at the end, and names stay unique. */
  lemma OverrideReplacesEntry(st: State, name: string, args: Args, callingFile: string, env: Env, i: nat)
    requires UniqueNames(st.deps)
    requires i < |st.deps| && st.deps[i].name == name
    ensures AfterOverride(st, name, args, callingFile, env).failure.None?
    ensures AfterOverride(st, name, args, callingFile, env).state.deps ==
              st.deps[..i] + st.deps[i + 1..] + [Declare(name, RewritePath(args, Dirname(callingFile), env.home))]
    ensures UniqueNames(AfterOverride(st, name, args, callingFile, env).state.deps)
  {
    assert FirstNamed(st.deps, name) == Some(i);
    var decl := Declare(name, RewritePath(args, Dirname(callingFile), env.home));
    assert AfterOverride(st, name, args, callingFile, env).state.deps ==
             WithoutDependency(st.deps, st.deps[i]) + [decl];
    WithoutUniqueEntry(st.deps, i);
    ReplacedNamesUnique(st.deps, i, decl);
  }

  /** Dropping entry i of a list with unique names and appending an entry
      with the same name keeps the names unique. */
  lemma ReplacedNamesUnique(deps: seq<Dependency>, i: nat, d: Dependency)
    requires UniqueNames(deps) && i < |deps| && deps[i].name == d.name
    ensures UniqueNames(deps[..i] + deps[i + 1..] + [d])
  {
    var rest := deps[..i] + deps[i + 1..];
    var all := rest + [d];
    assert forall j :: 0 <= j < |rest| ==> rest[j] == deps[if j < i then j else j + 1];
    forall j, k | 0 <= j < k < |all| ensures all[j].name != all[k].name {
      var j' := if j < i then j else j + 1;
      if k == |rest| {
        assert all[j] == deps[j'] && j' != i;
      } else {
        var k' := if k < i then k else k + 1;
        assert all[j] == deps[j'] && all[k] == deps[k'] && j' < k';
      }
    }
  }

  /** The entry whose source is inspected is the one `delete` returns: the
      last entry equal to the one found. A git source of that entry leaves
      the source list entirely; every other source stays, as often as it
      was there. Any other kind of source leaves the source list alone. */
  lemma OverrideCleansGitSource(st: State, name: string, args: Args, callingFile: string, env: Env, other: Source)
    requires FirstNamed(st.deps, name).Some?
    ensures var i := FirstNamed(st.deps, name).value;
            var removed := st.deps[LastEqual(st.deps, st.deps[i], i)];
            var sources := AfterOverride(st, name, args, callingFile, env).state.sources;
            && (removed.source.Git? ==> removed.source !in sources)
            && (removed.source.Git? && other != removed.source ==> multiset(sources)[other] == multiset(st.sources)[other])
            && (!removed.source.Git? ==> sources == st.sources)
  {
    var i := FirstNamed(st.deps, name).value;
    var removed := st.deps[LastEqual(st.deps, st.deps[i], i)];
    if removed.source.Git? {
      WithoutCount(st.sources, removed.source, removed.source);
      WithoutCount(st.sources, removed.source, other);
    }
  }

  /** Whatever the list holds, a successful override keeps every entry
      not equal to the one found, in its original order and as often as
      before, drops every entry equal to it, and appends the declaration. */
  lemma OverrideKeepsOthers(st: State, name: string, args: Args, callingFile: string, env: Env, d: Dependency)
    requires FirstNamed(st.deps, name).Some?
    ensures var i := FirstNamed(st.deps, name).value;
            var r := AfterOverride(st, name, args, callingFile, env);
            && r.failure.None?
            && |r.state.deps| >= 1
            && r.state.deps[..|r.state.deps| - 1] == WithoutDependency(st.deps, st.deps[i])
            && multiset(r.state.deps[..|r.state.deps| - 1])[d] ==
                 if SameDependency(d, st.deps[i]) then 0 else multiset(st.deps)[d]
  {
    var i := FirstNamed(st.deps, name).value;
    var r := AfterOverride(st, name, args, callingFile, env);
    var rest := WithoutDependency(st.deps, st.deps[i]);
    assert r.state.deps == rest + [Declare(name, RewritePath(args, Dirname(callingFile), env.home))];
    assert r.state.deps[..|r.state.deps| - 1] == rest;
    WithoutDependencyCount(st.deps, st.deps[i], d);
  }

  /** With unique names the entry `delete` returns is the one found. */
  lemma DeletedIsFoundWhenUnique(deps: seq<Dependency>, i: nat)
    requires UniqueNames(deps) && i < |deps|
    ensures LastEqual(deps, deps[i], i) == i
  {
  }

  /** Two equal entries, only the first from git: the source list keeps the
      git source, because `delete` returns the second entry. */
  lemma GitSourceOfLastDeletedEntry()
    ensures var git := Git("https://example.com/ansi.git", "main");
            var first := Dependency("ansi", ["= 1.4.3"], "runtime", git, map[]);
            var second := Dependency("ansi", ["= 1.4.3"], "runtime", DefaultSource, map[]);
            var st := State([first, second], [git], []);
            AfterOverride(st, "ansi", Args([], None), "/app/bundler.d/ansi.rb", Env("/home/dev", None, None)).state.sources
              == [git]
  {
    var git := Git("https://example.com/ansi.git", "main");
    var first := Dependency("ansi", ["= 1.4.3"], "runtime", git, map[]);
    var second := Dependency("ansi", ["= 1.4.3"], "runtime", DefaultSource, map[]);
    var deps := [first, second];
    assert FirstNamed(deps, "ansi") == Some(0);
    assert SameDependency(deps[1], deps[0]);
    assert LastEqual(deps, deps[0], 0) == 1;
  }

  /** RAILS_ENV only decides whether the warning is written: the dependency
      and source lists, and success, are the same either way. */
  lemma WarningDoesNotChangeResult(st: State, name: string, args: Args, callingFile: string, env: Env, railsEnv: Option<string>)
    ensures var a := AfterOverride(st, name, args, callingFile, env);
            var b := AfterOverride(st, name, args, callingFile, env.(railsEnv := railsEnv));
            a.state.deps == b.state.deps && a.state.sources == b.state.sources && a.failure == b.failure
  {
  }

  /** Overriding the same gem twice leaves the declaration of the second
      override: the later override wins. */
  lemma OverrideLastWins(st: State, name: string, first: Args, second: Args, file1: string, file2: string, env: Env, i: nat)
    requires UniqueNames(st.deps)
    requires i < |st.deps| && st.deps[i].name == name
    ensures var once := AfterOverride(st, name, first, file1, env);
            AfterOverride(once.state, name, second, file2, env).state.deps ==
              AfterOverride(st, name, second, file2, env).state.deps
  {
    var once := AfterOverride(st, name, first, file1, env);
    OverrideReplacesEntry(st, name, first, file1, env, i);
    OverrideReplacesEntry(st, name, second, file2, env, i);
    var deps1 := once.state.deps;
    var n := |deps1| - 1;
    OverrideReplacesEntry(once.state, name, second, file2, env, n);
    assert deps1[..n] == st.deps[..i] + st.deps[i + 1..];
  }

  // ---------------------------------------------------------------------
  // Evaluating files

  /** One line of a Gemfile: `gem` appends a declaration; `override_gem`
      is called from the file being evaluated. */
  function AfterInstr(st: State, instr: Instr, file: string, env: Env): (r: Run) {
    match instr
    case GemLine(name, args) => Run(st.(deps := st.deps + [Declare(name, args)]), None)
    case OverrideGemLine(name, args) => AfterOverride(st, name, args, file, env)
  }

  /** The lines of a file in order, stopping at the first that raises. */
  function AfterInstrs(st: State, instrs: seq<Instr>, file: string, env: Env): (r: Run) {
    if instrs == [] then Run(st, None)
    else
      var r := AfterInstrs(st, instrs[..|instrs| - 1], file, env);
      if r.failure.Some? then r else AfterInstr(r.state, instrs[|instrs| - 1], file, env)
  }

  /** One more line, after the earlier ones went through. */
  lemma InstrStep(st: State, instrs: seq<Instr>, i: nat, file: string, env: Env)
    requires i < |instrs| && AfterInstrs(st, instrs[..i], file, env).failure.None?
    ensures AfterInstrs(st, instrs[..i + 1], file, env) ==
              AfterInstr(AfterInstrs(st, instrs[..i], file, env).state, instrs[i], file, env)
  {
    assert instrs[..i + 1][..i] == instrs[..i];
  }

  lemma {:induction false} InstrsStopAtFailure(st: State, instrs: seq<Instr>, k: nat, file: string, env: Env)
    requires k <= |instrs|
    requires AfterInstrs(st, instrs[..k], file, env).failure.Some?
    ensures AfterInstrs(st, instrs, file, env) == AfterInstrs(st, instrs[..k], file, env)
    decreases |instrs| - k
  {
    if k < |instrs| {
      assert instrs[..k + 1][..k] == instrs[..k];
      InstrsStopAtFailure(st, instrs, k + 1, file, env);
    } else {
      assert instrs[..k] == instrs;
    }
  }

  /** Bundler's own `eval_gemfile` (the `super` call): evaluate the file's
      lines against the builder. */
  function AfterEvaluate(st: State, fs: FileSystem, gemfile: string, env: Env): (r: Run) {
    if gemfile in fs.gemfiles then AfterInstrs(st, fs.gemfiles[gemfile], gemfile, env)
    else Run(st, Some(GemfileNotFound(gemfile)))
  }

  /** Dir.glob over gemfile_dir/bundler.d with the pattern `*.rb`. */
  function SiblingFiles(fs: FileSystem, gemfileDir: string): (files: seq<string>) {
    Glob(fs, Join(gemfileDir, "bundler.d"))
  }

  /** Each file in turn, as a nested `eval_gemfile`: Bundler's evaluation
      alone, with no further bundler.d. */
  function AfterEachSibling(st: State, fs: FileSystem, gemfileDir: string, files: seq<string>, env: Env): (r: Run) {
    if files == [] then Run(st, None)
    else
      var r := AfterEachSibling(st, fs, gemfileDir, files[..|files| - 1], env);
      if r.failure.Some? then r
      else AfterEvaluate(r.state, fs, ExpandPath(files[|files| - 1], gemfileDir, env.home), env)
  }

  /** One more sibling file, after the earlier ones went through. */
  lemma SiblingStep(st: State, fs: FileSystem, dir: string, files: seq<string>, i: nat, env: Env)
    requires i < |files| && AfterEachSibling(st, fs, dir, files[..i], env).failure.None?
    ensures AfterEachSibling(st, fs, dir, files[..i + 1], env) ==
              AfterEvaluate(AfterEachSibling(st, fs, dir, files[..i], env).state, fs, ExpandPath(files[i], dir, env.home), env)
  {
    assert files[..i + 1][..i] == files[..i];
  }

  /** A file's lines raise nothing but an unknown gem. */
  lemma {:induction false} InstrsRaiseOnlyUnknownGem(st: State, instrs: seq<Instr>, file: string, env: Env)
    ensures var r := AfterInstrs(st, instrs, file, env);
            r.failure.Some? ==> r.failure.value.UnknownGem?
  {
    if instrs != [] {
      InstrsRaiseOnlyUnknownGem(st, instrs[..|instrs| - 1], file, env);
    }
  }

  lemma {:induction false} SiblingsRaiseOnlyEvaluationErrors(st: State, fs: FileSystem, dir: string, files: seq<string>, env: Env)
    ensures var r := AfterEachSibling(st, fs, dir, files, env);
            r.failure.Some? ==> r.failure.value.UnknownGem? || r.failure.value.GemfileNotFound?
  {
    if files != [] {
      SiblingsRaiseOnlyEvaluationErrors(st, fs, dir, files[..|files| - 1], env);
      var r := AfterEachSibling(st, fs, dir, files[..|files| - 1], env);
      var f := ExpandPath(files[|files| - 1], dir, env.home);
      if r.failure.None? && f in fs.gemfiles {
        InstrsRaiseOnlyUnknownGem(r.state, fs.gemfiles[f], f, env);
      }
    }
  }

  lemma {:induction false} SiblingsStopAtFailure(st: State, fs: FileSystem, dir: string, files: seq<string>, k: nat, env: Env)
    requires k <= |files|
    requires AfterEachSibling(st, fs, dir, files[..k], env).failure.Some?
    ensures AfterEachSibling(st, fs, dir, files, env) == AfterEachSibling(st, fs, dir, files[..k], env)
    decreases |files| - k
  {
    if k < |files| {
      assert files[..k + 1][..k] == files[..k];
      SiblingsStopAtFailure(st, fs, dir, files, k + 1, env);
    } else {
      assert files[..k] == files;
    }
  }

  /** `load_bundler_d(gemfile_dir)` as evidently intended: every `*.rb` file
      of gemfile_dir/bundler.d, in listing order, evaluated as nested. It
      raises only what evaluating a file raises, never an ArgumentError. */
  function AfterLoadBundlerD(st: State, fs: FileSystem, gemfileDir: string, env: Env): (r: Run)
    ensures r.failure.Some? ==> r.failure.value.UnknownGem? || r.failure.value.GemfileNotFound?
  {
    SiblingsRaiseOnlyEvaluationErrors(st, fs, gemfileDir, SiblingFiles(fs, gemfileDir), env);
    AfterEachSibling(st, fs, gemfileDir, SiblingFiles(fs, gemfileDir), env)
  }

  /** `load_bundler_d(gemfile_dir)` as written: the block hands three
      arguments to File.expand_path, which takes one or two, so the first
      matching file raises ArgumentError before anything is evaluated. */
  function AfterLoadBundlerDAsWritten(st: State, fs: FileSystem, gemfileDir: string): (r: Run)
    ensures r.state == st
    ensures r.failure.Some? <==> SiblingFiles(fs, gemfileDir) != []
  {
    if SiblingFiles(fs, gemfileDir) == [] then Run(st, None) else Run(st, Some(ExpandPathArity))
  }

  /** `eval_gemfile(gemfile, contents, nested)`: Bundler's evaluation, then,
      unless nested, the bundler.d directory beside the evaluated file. */
  function AfterEvalGemfile(st: State, fs: FileSystem, gemfile: string, nested: bool, env: Env): (r: Run)
    ensures nested || AfterEvaluate(st, fs, gemfile, env).failure.Some? ==> r == AfterEvaluate(st, fs, gemfile, env)
  {
    var r := AfterEvaluate(st, fs, gemfile, env);
    if r.failure.Some? || nested then r else AfterLoadBundlerD(r.state, fs, Dirname(gemfile), env)
  }

  /** A nested evaluation reads no directory at all: two file systems with
      the same Gemfiles give the same result whatever they list. */
  lemma NestedEvalReadsNoDirectory(st: State, fs1: FileSystem, fs2: FileSystem, gemfile: string, env: Env)
    requires fs1.gemfiles == fs2.gemfiles
    ensures AfterEvalGemfile(st, fs1, gemfile, true, env) == AfterEvalGemfile(st, fs2, gemfile, true, env)
  {
  }

  /** A top-level evaluation of the file `dir/name` loads `dir/bundler.d`,
      once, after the file itself. */
  lemma TopLevelEvalLoadsItsBundlerD(st: State, fs: FileSystem, dir: string, name: string, env: Env)
    requires IsDirectoryPath(dir) && name != [] && '/' !in name
    ensures var e := AfterEvaluate(st, fs, Join(dir, name), env);
            AfterEvalGemfile(st, fs, Join(dir, name), false, env) ==
              if e.failure.Some? then e else AfterEachSibling(e.state, fs, dir, Glob(fs, Join(dir, "bundler.d")), env)
  {
    DirnameOfJoin(dir, name);
  }

  lemma {:induction false} EachSiblingReadsOnlyGemfiles(st: State, fs1: FileSystem, fs2: FileSystem, dir: string, files: seq<string>, env: Env)
    requires fs1.gemfiles == fs2.gemfiles
    ensures AfterEachSibling(st, fs1, dir, files, env) == AfterEachSibling(st, fs2, dir, files, env)
  {
    if files != [] {
      EachSiblingReadsOnlyGemfiles(st, fs1, fs2, dir, files[..|files| - 1], env);
    }
  }

  /** The corrected loader is shallow: it reads only gemfile_dir/bundler.d,
      never a bundler.d inside it. */
  lemma LoadBundlerDIsShallow(st: State, fs1: FileSystem, fs2: FileSystem, dir: string, env: Env)
    requires fs1.gemfiles == fs2.gemfiles
    requires Listing(fs1, Join(dir, "bundler.d")) == Listing(fs2, Join(dir, "bundler.d"))
    ensures AfterLoadBundlerD(st, fs1, dir, env) == AfterLoadBundlerD(st, fs2, dir, env)
  {
    EachSiblingReadsOnlyGemfiles(st, fs1, fs2, dir, SiblingFiles(fs1, dir), env);
  }

  /** The file system of the counterexample below: /app/bundler.d holds
      extra.rb, which declares `gem "omg"`. */
  function ExampleFileSystem(): (fs: FileSystem) {
    FileSystem(map["/app/bundler.d" := ["extra.rb"]],
               map["/app/bundler.d/extra.rb" := [GemLine("omg", Args([], None))]])
  }

  lemma ExampleSiblingFiles()
    ensures SiblingFiles(ExampleFileSystem(), "/app") == ["/app/bundler.d/extra.rb"]
  {
    var dir := Join("/app", "bundler.d");
    assert dir == "/app/bundler.d";
    var entries := Listing(ExampleFileSystem(), dir);
    assert entries == ["extra.rb"];
    assert IsRubyFileName("extra.rb");
    assert Join(dir, "extra.rb") == "/app/bundler.d/extra.rb";
    assert entries[..0] == [];
    assert Matching(dir, entries) == Matching(dir, []) + [Join(dir, "extra.rb")];
  }

  /** With /app/bundler.d/extra.rb declaring `gem "omg"`: as written,
      loading /app's bundler.d raises; as intended, it declares omg. */
  lemma AsWrittenCounterexample()
    ensures AfterLoadBundlerDAsWritten(State([], [], []), ExampleFileSystem(), "/app").failure == Some(ExpandPathArity)
    ensures AfterLoadBundlerD(State([], [], []), ExampleFileSystem(), "/app", Env("/home/dev", Some("/app/Gemfile"), None))
              == Run(State([Declare("omg", Args([], None))], [], []), None)
  {
    var fs := ExampleFileSystem();
    var st := State([], [], []);
    var env := Env("/home/dev", Some("/app/Gemfile"), None);
    ExampleSiblingFiles();
    var files := ["/app/bundler.d/extra.rb"];
    assert files[..0] == [];
    var f := ExpandPath(files[0], "/app", env.home);
    assert f == files[0];
    var instrs := fs.gemfiles[f];
    assert instrs[..0] == [];
    assert AfterInstrs(st, instrs, f, env) == Run(State([Declare("omg", Args([], None))], [], []), None);
  }

  // ---------------------------------------------------------------------
  // Console lines

  /** `override_gem` writes at most a warning, never an `Injecting` line. */
  lemma OverrideAnnouncesNothing(st: State, name: string, args: Args, file: string, env: Env)
    ensures InjectingLines(AfterOverride(st, name, args, file, env).state.log) == InjectingLines(st.log)
  {
    var log := AfterOverride(st, name, args, file, env).state.log;
    if |log| > |st.log| {
      assert log == st.log + [log[|st.log|]];
      InjectingLinesAppend(st.log, log[|st.log|]);
    } else {
      assert log == st.log;
    }
  }

  lemma {:induction false} InstrsAnnounceNothing(st: State, instrs: seq<Instr>, file: string, env: Env)
    ensures InjectingLines(AfterInstrs(st, instrs, file, env).state.log) == InjectingLines(st.log)
  {
    if instrs != [] {
      InstrsAnnounceNothing(st, instrs[..|instrs| - 1], file, env);
      var r := AfterInstrs(st, instrs[..|instrs| - 1], file, env);
      if r.failure.None? {
        match instrs[|instrs| - 1]
        case GemLine(_, _) =>
        case OverrideGemLine(name, args) =>
          OverrideAnnouncesNothing(r.state, name, args, file, env);
      }
    }
  }

  lemma {:induction false} SiblingsAnnounceNothing(st: State, fs: FileSystem, dir: string, files: seq<string>, env: Env)
    ensures InjectingLines(AfterEachSibling(st, fs, dir, files, env).state.log) == InjectingLines(st.log)
  {
    if files != [] {
      SiblingsAnnounceNothing(st, fs, dir, files[..|files| - 1], env);
      var r := AfterEachSibling(st, fs, dir, files[..|files| - 1], env);
      var f := ExpandPath(files[|files| - 1], dir, env.home);
      if r.failure.None? && f in fs.gemfiles {
        InstrsAnnounceNothing(r.state, fs.gemfiles[f], f, env);
      }
    }
  }

  /** `eval_gemfile` writes no `Injecting` line of its own: only
      Bundler::Inject.load_bundler_d announces files. */
  lemma EvalGemfileAnnouncesNothing(st: State, fs: FileSystem, gemfile: string, nested: bool, env: Env)
    ensures InjectingLines(AfterEvalGemfile(st, fs, gemfile, nested, env).state.log) == InjectingLines(st.log)
  {
    var e := AfterEvaluate(st, fs, gemfile, env);
    if gemfile in fs.gemfiles {
      InstrsAnnounceNothing(st, fs.gemfiles[gemfile], gemfile, env);
    }
    if e.failure.None? && !nested {
      SiblingsAnnounceNothing(e.state, fs, Dirname(gemfile), SiblingFiles(fs, Dirname(gemfile)), env);
    }
  }

  // ---------------------------------------------------------------------
  // The builder, changed in place

  /** The Array of dependencies a builder and its caller share. */
  class DependencyList {
    var items: seq<Dependency>

    constructor(items: seq<Dependency>)
      ensures this.items == items
    {
      this.items := items;
    }
  }

  /** The git source list (`@sources.source_list_for(git_source)`). */
  class SourceList {
    var items: seq<Source>

    constructor(items: seq<Source>)
      ensures this.items == items
    {
      this.items := items;
    }
  }

  /** stdout and stderr, as the sequence of lines written. */
  class Console {
    var events: seq<Event>

    constructor()
      ensures events == []
    {
      events := [];
    }

    method Emit(e: Event)
      modifies this
      ensures events == old(events) + [e]
    {
      events := events + [e];
    }
  }

  /** `dependencies.find { |d| d.name == name }`, as the index found. */
  method Find(deps: seq<Dependency>, name: string) returns (r: Option<nat>)
    ensures r == FirstNamed(deps, name)
  {
    var i := 0;
    while i < |deps|
      invariant 0 <= i <= |deps|
      invariant forall j :: 0 <= j < i ==> deps[j].name != name
    {
      if deps[i].name == name {
        return Some(i);
      }
      i := i + 1;
    }
    return None;
  }

  /** `dependencies.delete(dep)`: the list left, and the last entry
      deleted, or None when nothing was equal to dep. */
  method Delete(deps: seq<Dependency>, dep: Dependency) returns (r: seq<Dependency>, removed: Option<Dependency>)
    ensures r == WithoutDependency(deps, dep)
    ensures removed.None? <==> forall j :: 0 <= j < |deps| ==> !SameDependency(deps[j], dep)
    ensures forall i :: 0 <= i < |deps| && SameDependency(deps[i], dep) ==>
              removed == Some(deps[LastEqual(deps, dep, i)])
  {
    r := [];
    removed := None;
    ghost var last := -1;
    var i := 0;
    while i < |deps|
      invariant 0 <= i <= |deps| && -1 <= last < i
      invariant r == WithoutDependency(deps[..i], dep)
      invariant removed == if last < 0 then None else Some(deps[last])
      invariant last >= 0 ==> SameDependency(deps[last], dep)
      invariant forall j :: last < j < i && 0 <= j ==> !SameDependency(deps[j], dep)
    {
      assert deps[..i + 1][..i] == deps[..i];
      if SameDependency(deps[i], dep) {
        removed := Some(deps[i]);
        last := i;
      } else {
        r := r + [deps[i]];
      }
      i := i + 1;
    }
    assert deps[..i] == deps;
    forall k | 0 <= k < |deps| && SameDependency(deps[k], dep)
      ensures removed == Some(deps[LastEqual(deps, dep, k)])
    {
      assert last >= k;
    }
  }

  /** `sources.delete_if { |other| source == other }`. */
  method DeleteIf(sources: seq<Source>, source: Source) returns (r: seq<Source>)
    ensures r == Without(sources, source)
  {
    r := [];
    var i := 0;
    while i < |sources|
      invariant 0 <= i <= |sources|
      invariant r == Without(sources[..i], source)
    {
      assert sources[..i + 1][..i] == sources[..i];
      if sources[i] != source {
        r := r + [sources[i]];
      }
      i := i + 1;
    }
    assert sources[..i] == sources;
  }

  /** A Bundler::Dsl with DslPatch prepended. */
  class Builder {
    const dependencies: DependencyList
    const sources: SourceList
    const console: Console

    constructor(dependencies: DependencyList, sources: SourceList, console: Console)
      ensures this.dependencies == dependencies && this.sources == sources && this.console == console
    {
      this.dependencies := dependencies;
      this.sources := sources;
      this.console := console;
    }

    function Snapshot(): (s: State)
      reads dependencies, sources, console
    {
      State(dependencies.items, sources.items, console.events)
    }

    /** Bundler's `gem(name, *args)`, as far as this model needs it. */
    method Gem(name: string, args: Args)
      modifies dependencies
      ensures dependencies.items == old(dependencies.items) + [Declare(name, args)]
    {
      dependencies.items := dependencies.items + [Declare(name, args)];
    }

    method OverrideGem(name: string, args: Args, callingFile: string, env: Env) returns (failure: Option<Error>)
      modifies dependencies, sources, console
      ensures Run(Snapshot(), failure) == AfterOverride(old(Snapshot()), name, args, callingFile, env)
    {
      if dependencies.items == [] {
        return None;
      }
      var found := Find(dependencies.items, name);
      if found.None? {
        return Some(UnknownGem(name));
      }
      Replace(found.value, name, args, callingFile, env);
      failure := None;
    }

    /** The successful override of entry i: `delete`, drop the git source
        of the entry it returned, `gem` with the rewritten arguments, and
        warn outside production. */
    method Replace(i: nat, name: string, args: Args, callingFile: string, env: Env)
      requires i < |dependencies.items|
      modifies dependencies, sources, console
      ensures Snapshot() == Replaced(old(Snapshot()), i, name, args, callingFile, env)
    {
      ghost var st := Snapshot();
      var dependency := dependencies.items[i];
      var rest, removed := Delete(dependencies.items, dependency);
      ghost var k := LastEqual(st.deps, dependency, i);
      assert removed == Some(st.deps[k]);
      dependencies.items := rest;
      if removed.value.source.Git? {
        sources.items := DeleteIf(sources.items, removed.value.source);
      }
      ghost var after := Replaced(st, i, name, args, callingFile, env);
      assert sources.items == after.sources;
      var rewritten := RewritePath(args, Dirname(callingFile), env.home);
      Gem(name, rewritten);
      assert dependencies.items == after.deps;
      if env.railsEnv != Some("production") {
        console.Emit(OverrideWarning(name, rewritten, callingFile));
      }
      assert console.events == after.log;
    }

    /** One line of the file being evaluated. */
    method Perform(instr: Instr, file: string, env: Env) returns (failure: Option<Error>)
      modifies dependencies, sources, console
      ensures Run(Snapshot(), failure) == AfterInstr(old(Snapshot()), instr, file, env)
    {
      match instr {
        case GemLine(name, args) =>
          Gem(name, args);
          failure := None;
        case OverrideGemLine(name, args) =>
          failure := OverrideGem(name, args, file, env);
      }
    }

    /** Bundler's own `eval_gemfile`, line by line. */
    method Evaluate(fs: FileSystem, gemfile: string, env: Env) returns (failure: Option<Error>)
      modifies dependencies, sources, console
      ensures Run(Snapshot(), failure) == AfterEvaluate(old(Snapshot()), fs, gemfile, env)
    {
      if gemfile !in fs.gemfiles {
        return Some(GemfileNotFound(gemfile));
      }
      ghost var start := Snapshot();
      var instrs := fs.gemfiles[gemfile];
      var i := 0;
      while i < |instrs|
        invariant 0 <= i <= |instrs|
        invariant Run(Snapshot(), None) == AfterInstrs(start, instrs[..i], gemfile, env)
      {
        InstrStep(start, instrs, i, gemfile, env);
        failure := Perform(instrs[i], gemfile, env);
        if failure.Some? {
          InstrsStopAtFailure(start, instrs, i + 1, gemfile, env);
          return;
        }
        i := i + 1;
      }
      assert instrs[..i] == instrs;
      return None;
    }

    method EvalGemfile(fs: FileSystem, gemfile: string, nested: bool, env: Env) returns (failure: Option<Error>)
      modifies dependencies, sources, console
      ensures Run(Snapshot(), failure) == AfterEvalGemfile(old(Snapshot()), fs, gemfile, nested, env)
      decreases if nested then 0 else 2
    {
      failure := Evaluate(fs, gemfile, env);
      if failure.None? && !nested {
        failure := LoadBundlerD(fs, Dirname(gemfile), env);
      }
    }

    /** `load_bundler_d(gemfile_dir)`, evaluating each file as nested. */
    method LoadBundlerD(fs: FileSystem, gemfileDir: string, env: Env) returns (failure: Option<Error>)
      modifies dependencies, sources, console
      ensures Run(Snapshot(), failure) == AfterLoadBundlerD(old(Snapshot()), fs, gemfileDir, env)
      decreases 1
    {
      ghost var start := Snapshot();
      var files := SiblingFiles(fs, gemfileDir);
      assert AfterLoadBundlerD(start, fs, gemfileDir, env) == AfterEachSibling(start, fs, gemfileDir, files, env);
      var i := 0;
      while i < |files|
        invariant 0 <= i <= |files|
        invariant Run(Snapshot(), None) == AfterEachSibling(start, fs, gemfileDir, files[..i], env)
      {
        SiblingStep(start, fs, gemfileDir, files, i, env);
        var file := ExpandPath(files[i], gemfileDir, env.home);
        failure := EvalGemfile(fs, file, true, env);
        if failure.Some? {
          SiblingsStopAtFailure(start, fs, gemfileDir, files, i + 1, env);
          return;
        }
        i := i + 1;
      }
      assert files[..i] == files;
      return None;
    }
  }
}
