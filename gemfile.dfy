/** The values a Gemfile builder works on: declared dependencies, the git
    source list, the arguments of a `gem` line, the events written to the
    console, and the files the builder can read. */
module Gemfile {
  import opened Paths

  datatype Option<T> = None | Some(value: T)

  /** Where a declared gem comes from. */
  datatype Source =
    | DefaultSource
    | Git(uri: string, ref: string)
    | PathSource(path: string)
    | OtherSource(kind: string)

  /** A declared gem; `kind` is Gem::Dependency#type ("runtime" unless the
      options name another). */
  datatype Dependency = Dependency(
    name: string,
    requirements: seq<string>,
    kind: string,
    source: Source,
    options: map<string, string>)

  /** The arguments after the gem name: the requirement strings, and the
      options Hash when a Hash is the last argument. */
  datatype Args = Args(requirements: seq<string>, options: Option<map<string, string>>)

  /** One line of a Gemfile or of a bundler.d file. */
  datatype Instr =
    | GemLine(name: string, args: Args)
    | OverrideGemLine(name: string, args: Args)

  const UnknownGemPrefix := "Trying to override unknown gem "

  datatype Error =
    | UnknownGem(name: string)
    | GemfileNotFound(path: string)
    | ExpandPathArity
    | BundleGemfileUnset
  {
    /** The text of the exception raised; an unknown gem is named at the
        end of the text. */
    function Message(): (m: string)
      ensures UnknownGem? ==> m == UnknownGemPrefix + name
      ensures GemfileNotFound? ==> |m| >= |path| && m[..|path|] == path
    {
      match this
      case UnknownGem(name) => UnknownGemPrefix + name
      case GemfileNotFound(path) => path + " not found"
      case ExpandPathArity => "wrong number of arguments (given 3, expected 1..2)"
      case BundleGemfileUnset => "no implicit conversion of nil into String"
    }
  }

  /** A line written to the console: `Injecting <file>...` on stdout, or the
      override warning on stderr. */
  datatype Event =
    | Injecting(file: string)
    | OverrideWarning(name: string, args: Args, caller: string)

  /** What one builder pass can change. */
  datatype State = State(deps: seq<Dependency>, sources: seq<Source>, log: seq<Event>)

  /** The state reached and, when a step raised, the error; a failed step
      leaves the state it had reached. */
  datatype Run = Run(state: State, failure: Option<Error>)

  /** The process environment the core reads. */
  datatype Env = Env(home: string, bundleGemfile: Option<string>, railsEnv: Option<string>)

  /** Directory listings (entry names, in the order the system lists them)
      and the parsed contents of the Gemfiles that exist. */
  datatype FileSystem = FileSystem(listing: map<string, seq<string>>, gemfiles: map<string, seq<Instr>>)

  /** A directory that does not exist lists nothing. */
  function Listing(fs: FileSystem, dir: string): (entries: seq<string>) {
    if dir in fs.listing then fs.listing[dir] else []
  }

  /** Dir.glob(File.join(dir, '*.rb')), in listing order. */
  function Glob(fs: FileSystem, dir: string): (r: seq<string>)
    ensures |r| <= |Listing(fs, dir)|
  {
    Matching(dir, Listing(fs, dir))
  }

  /** The `*.rb` entries of a listing, each joined to the directory. */
  function Matching(dir: string, entries: seq<string>): (r: seq<string>)
    ensures |r| <= |entries|
  {
    if entries == [] then []
    else
      var e := entries[|entries| - 1];
      Matching(dir, entries[..|entries| - 1]) + (if IsRubyFileName(e) then [Join(dir, e)] else [])
  }

  /** Exactly the `*.rb` entries are kept, each joined to the directory. */
  lemma {:induction false} MatchingExact(dir: string, entries: seq<string>)
    ensures forall k :: 0 <= k < |entries| && IsRubyFileName(entries[k]) ==> Join(dir, entries[k]) in Matching(dir, entries)
    ensures forall f :: f in Matching(dir, entries) ==> exists e :: e in entries && IsRubyFileName(e) && f == Join(dir, e)
  {
    if entries != [] {
      var init := entries[..|entries| - 1];
      MatchingExact(dir, init);
      assert forall k :: 0 <= k < |init| ==> init[k] == entries[k];
      assert forall x :: x in init ==> x in entries;
    }
  }

  /** The glob holds every `*.rb` entry of the directory, joined to it, and
      nothing else. */
  lemma GlobExact(fs: FileSystem, dir: string)
    ensures forall k :: 0 <= k < |Listing(fs, dir)| && IsRubyFileName(Listing(fs, dir)[k]) ==>
              Join(dir, Listing(fs, dir)[k]) in Glob(fs, dir)
    ensures forall f :: f in Glob(fs, dir) ==> exists e :: e in Listing(fs, dir) && IsRubyFileName(e) && f == Join(dir, e)
  {
    MatchingExact(dir, Listing(fs, dir));
  }

  /** What `gem(name, *args)` declares: the requirements, and the options
      Hash, whose :git or :path key names the source and whose :type key
      names the dependency type. */
  function Declare(name: string, args: Args): (d: Dependency)
    ensures d.name == name && d.requirements == args.requirements
    ensures d.source.Git? <==> args.options.Some? && "git" in args.options.value
    ensures d.source.PathSource? <==>
              args.options.Some? && "git" !in args.options.value && "path" in args.options.value
    ensures d.kind == "runtime" <==>
              args.options.None? || "type" !in args.options.value || args.options.value["type"] == "runtime"
    ensures args.options.Some? && "type" in args.options.value ==> d.kind == args.options.value["type"]
    ensures args.options.Some? ==> d.options == args.options.value
    ensures args.options.None? ==> d.options == map[]
    ensures d.source.Git? ==>
              && args.options.Some? && "git" in args.options.value
              && d.source.uri == args.options.value["git"]
              && d.source.ref == (if "ref" in args.options.value then args.options.value["ref"] else "")
    ensures d.source.PathSource? ==>
              args.options.Some? && "path" in args.options.value && d.source.path == args.options.value["path"]
    ensures args.options.None? || ("git" !in args.options.value && "path" !in args.options.value) ==>
              d.source == DefaultSource
  {
    var opts := if args.options.Some? then args.options.value else map[];
    var source :=
      if "git" in opts then Git(opts["git"], if "ref" in opts then opts["ref"] else "")
      else if "path" in opts then PathSource(opts["path"])
      else DefaultSource;
    Dependency(name, args.requirements, if "type" in opts then opts["type"] else "runtime", source, opts)
  }

  predicate UniqueNames(deps: seq<Dependency>) {
    forall i, j :: 0 <= i < j < |deps| ==> deps[i].name != deps[j].name
  }

  /** `dependencies.find { |d| d.name == name }`: the first dependency
      with that name. */
  function FirstNamed(deps: seq<Dependency>, name: string): (r: Option<nat>)
    ensures r.Some? ==> r.value < |deps| && deps[r.value].name == name
    ensures r.Some? ==> forall j :: 0 <= j < r.value ==> deps[j].name != name
    ensures r.None? <==> forall j :: 0 <= j < |deps| ==> deps[j].name != name
  {
    if deps == [] then None
    else if deps[0].name == name then Some(0)
    else match FirstNamed(deps[1..], name)
      case None => None
      case Some(k) => Some(k + 1)
  }

  /** Gem::Dependency#==: same name, same type and same requirement. */
  predicate SameDependency(a: Dependency, b: Dependency) {
    a.name == b.name && a.kind == b.kind && a.requirements == b.requirements
  }

  /** The element `dependencies.delete(dep)` returns: the last entry equal
      to dep, given that entry i is one. */
  function LastEqual(deps: seq<Dependency>, dep: Dependency, i: nat): (k: nat)
    requires i < |deps| && SameDependency(deps[i], dep)
    ensures i <= k < |deps| && SameDependency(deps[k], dep)
    ensures forall j :: k < j < |deps| ==> !SameDependency(deps[j], dep)
  {
    if SameDependency(deps[|deps| - 1], dep) then |deps| - 1
    else LastEqual(deps[..|deps| - 1], dep, i)
  }

  /** `dependencies.delete(dep)`: drops every entry equal to dep. */
  function WithoutDependency(deps: seq<Dependency>, dep: Dependency): (r: seq<Dependency>)
    ensures |r| <= |deps|
  {
    if deps == [] then []
    else
      var last := deps[|deps| - 1];
      WithoutDependency(deps[..|deps| - 1], dep) + (if SameDependency(last, dep) then [] else [last])
  }

  /** `sources.delete_if { |other| x == other }`: drops every source equal
      to x. */
  function Without(s: seq<Source>, x: Source): (r: seq<Source>)
    ensures |r| <= |s|
  {
    if s == [] then []
    else
      var last := s[|s| - 1];
      Without(s[..|s| - 1], x) + (if last == x then [] else [last])
  }

  /** After `delete`, no entry equal to dep is left and every other entry
      is there exactly as often as before. */
  lemma {:induction false} WithoutDependencyCount(deps: seq<Dependency>, dep: Dependency, d: Dependency)
    ensures multiset(WithoutDependency(deps, dep))[d] == if SameDependency(d, dep) then 0 else multiset(deps)[d]
  {
    if deps != [] {
      var last := deps[|deps| - 1];
      assert deps == deps[..|deps| - 1] + [last];
      WithoutDependencyCount(deps[..|deps| - 1], dep, d);
    }
  }

  /** After `delete_if`, no source equal to x is left and every other
      source is there exactly as often as before. */
  lemma {:induction false} WithoutCount(s: seq<Source>, x: Source, y: Source)
    ensures multiset(Without(s, x))[y] == if y == x then 0 else multiset(s)[y]
  {
    if s != [] {
      var last := s[|s| - 1];
      assert s == s[..|s| - 1] + [last];
      WithoutCount(s[..|s| - 1], x, y);
    }
  }

  /** `delete_if` on a list without x leaves the list as it was. */
  lemma {:induction false} WithoutAbsent(s: seq<Source>, x: Source)
    requires x !in s
    ensures Without(s, x) == s
  {
    if s != [] {
      var last := s[|s| - 1];
      assert s == s[..|s| - 1] + [last];
      WithoutAbsent(s[..|s| - 1], x);
    }
  }

  /** The files announced by `Injecting <file>...` lines, in order. */
  function InjectingLines(log: seq<Event>): (files: seq<string>) {
    if log == [] then []
    else
      var last := log[|log| - 1];
      InjectingLines(log[..|log| - 1]) + (if last.Injecting? then [last.file] else [])
  }

  lemma InjectingLinesAppend(log: seq<Event>, e: Event)
    ensures InjectingLines(log + [e]) == InjectingLines(log) + (if e.Injecting? then [e.file] else [])
  {
    assert (log + [e])[..|log|] == log;
  }

  /** Deleting an entry of a list whose names are unique removes exactly
      that entry and keeps all others in their original order. */
  lemma {:induction false} WithoutUniqueEntry(deps: seq<Dependency>, i: nat)
    requires UniqueNames(deps) && i < |deps|
    ensures WithoutDependency(deps, deps[i]) == deps[..i] + deps[i + 1..]
  {
    var n := |deps| - 1;
    var init := deps[..n];
    assert UniqueNames(init);
    if i == n {
      WithoutNoMatch(init, deps[i]);
      assert deps[..i] == init;
    } else {
      WithoutUniqueEntry(init, i);
      assert !SameDependency(deps[n], deps[i]);
      assert init[..i] == deps[..i];
      assert init[i + 1..] + [deps[n]] == deps[i + 1..];
    }
  }

  lemma {:induction false} WithoutNoMatch(deps: seq<Dependency>, dep: Dependency)
    requires forall k :: 0 <= k < |deps| ==> deps[k].name != dep.name
    ensures WithoutDependency(deps, dep) == deps
  {
    if deps != [] {
      WithoutNoMatch(deps[..|deps| - 1], dep);
    }
  }

  /** `delete` keeps the surviving entries in their original order: it
      distributes over concatenation, duplicates or not. */
  lemma {:induction false} WithoutDependencyConcat(a: seq<Dependency>, b: seq<Dependency>, x: Dependency)
    ensures WithoutDependency(a + b, x) == WithoutDependency(a, x) + WithoutDependency(b, x)
  {
    if b != [] {
      var n := |b| - 1;
      assert (a + b)[..|a + b| - 1] == a + b[..n];
      WithoutDependencyConcat(a, b[..n], x);
    } else {
      assert a + b == a;
    }
  }

  /** Without keeps the surviving elements in their original order: it
      distributes over concatenation. */
  lemma {:induction false} WithoutConcat(a: seq<Source>, b: seq<Source>, x: Source)
    ensures Without(a + b, x) == Without(a, x) + Without(b, x)
  {
    if b != [] {
      var n := |b| - 1;
      assert (a + b)[..|a + b| - 1] == a + b[..n];
      WithoutConcat(a, b[..n], x);
    } else {
      assert a + b == a;
    }
  }
}
