/** Bundler::Inject: once Bundler has built its definition, evaluate the
    `*.rb` files of the global override directory (~/.bundler.d) and then
    those of the local one (bundler.d beside BUNDLE_GEMFILE) against the
    definition's own dependency and source lists. */
module Inject {
  import opened Paths
  import opened Ordering
  import opened Gemfile
  import opened DslPatch

  /** `File.join(Dir.home, ".bundler.d")`: home, then `.bundler.d`. */
  function GlobalBundlerD(home: string): (dir: string)
    ensures |dir| == |home| + |".bundler.d"| + (if EndsWithSeparator(home) then 0 else 1)
    ensures dir[..|home|] == home && dir[|dir| - |".bundler.d"|..] == ".bundler.d"
    ensures !EndsWithSeparator(home) ==> dir[|home|] == '/'
  {
    Join(home, ".bundler.d")
  }

  /** `File.join(File.dirname(ENV["BUNDLE_GEMFILE"]), "bundler.d")`: the
      Gemfile's directory, then `bundler.d`. */
  function LocalBundlerD(bundleGemfile: string): (dir: string)
    ensures var base := Dirname(bundleGemfile);
            |dir| == |base| + |"bundler.d"| + (if EndsWithSeparator(base) then 0 else 1)
    ensures dir[..|Dirname(bundleGemfile)|] == Dirname(bundleGemfile) && dir[|dir| - |"bundler.d"|..] == "bundler.d"
    ensures !EndsWithSeparator(Dirname(bundleGemfile)) ==> dir[|Dirname(bundleGemfile)|] == '/'
  {
    Join(Dirname(bundleGemfile), "bundler.d")
  }

  /** The global directory sits directly in the home directory. */
  lemma GlobalBundlerDInHome(home: string)
    requires IsDirectoryPath(home)
    ensures Dirname(GlobalBundlerD(home)) == home
    ensures IsDirectoryPath(GlobalBundlerD(home))
  {
    DirnameOfJoin(home, ".bundler.d");
    JoinIsDirectoryPath(home, ".bundler.d");
  }

  /** The local directory sits beside the Gemfile BUNDLE_GEMFILE names. */
  lemma LocalBundlerDBesideGemfile(projectDir: string, gemfileName: string)
    requires IsDirectoryPath(projectDir) && gemfileName != [] && '/' !in gemfileName
    ensures LocalBundlerD(Join(projectDir, gemfileName)) == Join(projectDir, "bundler.d")
  {
    DirnameOfJoin(projectDir, gemfileName);
  }

  /** `Dir.glob(File.join(dir, '*.rb')).sort`: the matching entries in
      ascending order. */
  function InjectedFiles(fs: FileSystem, dir: string): (r: seq<string>)
    ensures Sorted(r) && multiset(r) == multiset(Glob(fs, dir))
  {
    SortSorted(Glob(fs, dir));
    Sort(Glob(fs, dir))
  }

  /** The files taken from a directory are exactly its `*.rb` entries,
      each joined to the directory. */
  lemma InjectedFilesExact(fs: FileSystem, dir: string, f: string)
    ensures f in InjectedFiles(fs, dir) <==>
              exists e :: e in Listing(fs, dir) && IsRubyFileName(e) && f == Join(dir, e)
  {
    var r := InjectedFiles(fs, dir);
    var g := Glob(fs, dir);
    GlobExact(fs, dir);
    assert f in r <==> f in multiset(r);
    assert f in g <==> f in multiset(g);
    if exists e :: e in Listing(fs, dir) && IsRubyFileName(e) && f == Join(dir, e) {
      var e :| e in Listing(fs, dir) && IsRubyFileName(e) && f == Join(dir, e);
      var k :| 0 <= k < |Listing(fs, dir)| && Listing(fs, dir)[k] == e;
      assert f in g;
    }
  }

  /** One discovered file: the `Injecting <f>...` line, then
      `builder.eval_gemfile(f, nil)`, which is not nested. */
  function AfterInjectFile(st: State, fs: FileSystem, f: string, env: Env): (r: Run) {
    AfterEvalGemfile(st.(log := st.log + [Injecting(f)]), fs, f, false, env)
  }

  /** The files in turn, stopping at the first that raises. */
  function AfterInjectFiles(st: State, fs: FileSystem, files: seq<string>, env: Env): (r: Run) {
    if files == [] then Run(st, None)
    else
      var r := AfterInjectFiles(st, fs, files[..|files| - 1], env);
      if r.failure.Some? then r else AfterInjectFile(r.state, fs, files[|files| - 1], env)
  }

  /** `load_bundler_d(builder, dir)`: with no file nothing changes. */
  function AfterInjectDir(st: State, fs: FileSystem, dir: string, env: Env): (r: Run)
    ensures InjectedFiles(fs, dir) == [] ==> r == Run(st, None)
  {
    AfterInjectFiles(st, fs, InjectedFiles(fs, dir), env)
  }

  /** `inject!(dependencies)`: the global directory, then the local one;
      without BUNDLE_GEMFILE the local directory cannot be named, and
      `inject!` raises. */
  function AfterInject(st: State, fs: FileSystem, env: Env): (r: Run)
    ensures env.bundleGemfile.None? ==> r.failure.Some?
  {
    var global := AfterInjectDir(st, fs, GlobalBundlerD(env.home), env);
    if global.failure.Some? then global
    else match env.bundleGemfile
      case None => Run(global.state, Some(BundleGemfileUnset))
      case Some(gemfile) => AfterInjectDir(global.state, fs, LocalBundlerD(gemfile), env)
  }

  /** One more file, after the earlier ones went through. */
  lemma InjectFileStep(st: State, fs: FileSystem, files: seq<string>, i: nat, env: Env)
    requires i < |files| && AfterInjectFiles(st, fs, files[..i], env).failure.None?
    ensures var before := AfterInjectFiles(st, fs, files[..i], env).state;
            AfterInjectFiles(st, fs, files[..i + 1], env) ==
              AfterEvalGemfile(before.(log := before.log + [Injecting(files[i])]), fs, files[i], false, env)
  {
    assert files[..i + 1][..i] == files[..i];
  }

  lemma {:induction false} InjectFilesStopAtFailure(st: State, fs: FileSystem, files: seq<string>, k: nat, env: Env)
    requires k <= |files|
    requires AfterInjectFiles(st, fs, files[..k], env).failure.Some?
    ensures AfterInjectFiles(st, fs, files, env) == AfterInjectFiles(st, fs, files[..k], env)
    decreases |files| - k
  {
    if k < |files| {
      assert files[..k + 1][..k] == files[..k];
      InjectFilesStopAtFailure(st, fs, files, k + 1, env);
    } else {
      assert files[..k] == files;
    }
  }

  /** Taking one file adds exactly one `Injecting` line, naming that file. */
  lemma InjectFileAnnouncesIt(st: State, fs: FileSystem, f: string, env: Env)
    ensures InjectingLines(AfterInjectFile(st, fs, f, env).state.log) == InjectingLines(st.log) + [f]
  {
    var announced := st.(log := st.log + [Injecting(f)]);
    InjectingLinesAppend(st.log, Injecting(f));
    EvalGemfileAnnouncesNothing(announced, fs, f, false, env);
  }

  lemma AppendLast(prefix: seq<string>, s: seq<string>)
    requires s != []
    ensures prefix + s[..|s| - 1] + [s[|s| - 1]] == prefix + s
  {
    assert s[..|s| - 1] + [s[|s| - 1]] == s;
  }

  /** The last file of a pass adds its own `Injecting` line. */
  lemma InjectFilesAnnounceLast(st: State, fs: FileSystem, files: seq<string>, env: Env)
    requires files != [] && AfterInjectFiles(st, fs, files[..|files| - 1], env).failure.None?
    ensures InjectingLines(AfterInjectFiles(st, fs, files, env).state.log) ==
              InjectingLines(AfterInjectFiles(st, fs, files[..|files| - 1], env).state.log) + [files[|files| - 1]]
  {
    InjectFileAnnouncesIt(AfterInjectFiles(st, fs, files[..|files| - 1], env).state, fs, files[|files| - 1], env);
  }

  /** When every file is evaluated without error, each produced exactly
      one `Injecting` line, in the order the files were taken. */
  lemma {:induction false} InjectFilesAnnounceEach(st: State, fs: FileSystem, files: seq<string>, env: Env)
    ensures var r := AfterInjectFiles(st, fs, files, env);
            r.failure.None? ==> InjectingLines(r.state.log) == InjectingLines(st.log) + files
  {
    if files != [] {
      var init := files[..|files| - 1];
      InjectFilesAnnounceEach(st, fs, init, env);
      if AfterInjectFiles(st, fs, init, env).failure.None? {
        InjectFilesAnnounceLast(st, fs, files, env);
        AppendLast(InjectingLines(st.log), files);
      }
    }
  }

  /** A successful pass announced every file of the global directory, in
      sorted order, before any file of the local directory: local
      overrides are applied after, and so win over, global ones. */
  lemma GlobalBeforeLocal(st: State, fs: FileSystem, env: Env)
    ensures var r := AfterInject(st, fs, env);
            r.failure.None? ==>
              && env.bundleGemfile.Some?
              && InjectingLines(r.state.log) ==
                   InjectingLines(st.log) + InjectedFiles(fs, GlobalBundlerD(env.home))
                     + InjectedFiles(fs, LocalBundlerD(env.bundleGemfile.value))
  {
    InjectFilesAnnounceEach(st, fs, InjectedFiles(fs, GlobalBundlerD(env.home)), env);
    var global := AfterInjectDir(st, fs, GlobalBundlerD(env.home), env);
    if global.failure.None? && env.bundleGemfile.Some? {
      InjectFilesAnnounceEach(global.state, fs, InjectedFiles(fs, LocalBundlerD(env.bundleGemfile.value)), env);
    }
  }

  /** With no `*.rb` file in either directory nothing is evaluated and the
      builder's state is unchanged. */
  lemma NothingToInject(st: State, fs: FileSystem, env: Env)
    requires env.bundleGemfile.Some?
    requires forall e :: e in Listing(fs, GlobalBundlerD(env.home)) ==> !IsRubyFileName(e)
    requires forall e :: e in Listing(fs, LocalBundlerD(env.bundleGemfile.value)) ==> !IsRubyFileName(e)
    ensures AfterInject(st, fs, env) == Run(st, None)
  {
    var g := InjectedFiles(fs, GlobalBundlerD(env.home));
    var l := InjectedFiles(fs, LocalBundlerD(env.bundleGemfile.value));
    if g != [] {
      InjectedFilesExact(fs, GlobalBundlerD(env.home), g[0]);
    }
    if l != [] {
      InjectedFilesExact(fs, LocalBundlerD(env.bundleGemfile.value), l[0]);
    }
  }

  /** One file of the loop: `puts "Injecting #{f}..."`, then
      `builder.eval_gemfile(f, nil)`. */
  method InjectFile(builder: Builder, fs: FileSystem, f: string, env: Env) returns (failure: Option<Error>)
    modifies builder.dependencies, builder.sources, builder.console
    ensures Run(builder.Snapshot(), failure) == AfterInjectFile(old(builder.Snapshot()), fs, f, env)
  {
    builder.console.Emit(Injecting(f));
    failure := builder.EvalGemfile(fs, f, false, env);
  }

  /** `load_bundler_d(builder, dir)`: announce and evaluate each file. */
  method LoadBundlerD(builder: Builder, fs: FileSystem, dir: string, env: Env) returns (failure: Option<Error>)
    modifies builder.dependencies, builder.sources, builder.console
    ensures Run(builder.Snapshot(), failure) == AfterInjectDir(old(builder.Snapshot()), fs, dir, env)
  {
    ghost var start := builder.Snapshot();
    var files := InjectedFiles(fs, dir);
    assert AfterInjectDir(start, fs, dir, env) == AfterInjectFiles(start, fs, files, env);
    var i := 0;
    while i < |files|
      invariant 0 <= i <= |files|
      invariant Run(builder.Snapshot(), None) == AfterInjectFiles(start, fs, files[..i], env)
    {
      InjectFileStep(start, fs, files, i, env);
      failure := InjectFile(builder, fs, files[i], env);
      if failure.Some? {
        InjectFilesStopAtFailure(start, fs, files, i + 1, env);
        return;
      }
      i := i + 1;
    }
    assert files[..i] == files;
    return None;
  }

  /** `inject!(dependencies)`: a fresh builder works on the caller's own
      dependency list, source list and console, so every change it makes
      is seen by the caller. */
  method Inject(dependencies: DependencyList, sources: SourceList, console: Console, fs: FileSystem, env: Env)
    returns (failure: Option<Error>)
    modifies dependencies, sources, console
    ensures Run(State(dependencies.items, sources.items, console.events), failure) ==
              AfterInject(old(State(dependencies.items, sources.items, console.events)), fs, env)
  {
    var builder := new Builder(dependencies, sources, console);
    failure := LoadBundlerD(builder, fs, GlobalBundlerD(env.home), env);
    if failure.Some? {
      return;
    }
    if env.bundleGemfile.None? {
      return Some(BundleGemfileUnset);
    }
    failure := LoadBundlerD(builder, fs, LocalBundlerD(env.bundleGemfile.value), env);
  }
}
