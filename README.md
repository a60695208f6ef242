# bundler-inject, modelled in Dafny

bundler-inject is a Bundler plugin. Before Bundler installs anything it
evaluates extra Gemfile fragments against the dependency list Bundler has
already built:

- every `*.rb` file in the global directory `~/.bundler.d`, in sorted order;
- then every `*.rb` file in the local directory `bundler.d`, which sits beside
  the Gemfile that `BUNDLE_GEMFILE` names.

The fragments may use a new Gemfile verb, `override_gem`. It does four things:

- it replaces an existing dependency by a fresh declaration;
- it drops the git source of the replaced dependency;
- it expands a `:path` option against the directory of the calling file;
- it writes a warning unless `RAILS_ENV` is `production`.

The plugin also changes Bundler's `eval_gemfile`. Unless the evaluation is
nested, it goes on to the `bundler.d` directory beside the evaluated file.
As written, that loader raises `ArgumentError` as soon as the directory
holds a `*.rb` file, so it never loads anything (see "## Findings"). The
model keeps that loader as `DslPatch.AfterLoadBundlerDAsWritten`.
Everything built on `eval_gemfile` uses the evidently intended loader: the
`Builder` methods, `Inject.AfterInject` and `Inject.Inject`. That loader
evaluates each file as a nested Gemfile.

The project has five modules:

- `Paths`: the parts of `File.join`, `File.dirname`, `File.expand_path` and
  the `*.rb` glob pattern the plugin relies on.
- `Ordering`: `Array#sort` on strings, as an insertion sort. It is proved
  sorted, a permutation of its input, and the only sorted permutation.
- `Gemfile`: the values a builder works on.
  - `Dependency`, `Source`, `Args`.
  - The console `Event`s and the builder `State`.
  - The `Run`: the state reached, plus the error raised if any.
  - Directory listings and Gemfile contents, as `FileSystem`.
  - The list operations `find`, `delete` and `delete_if`.
- `DslPatch`: the methods prepended to `Bundler::Dsl`.
  - Functions `AfterOverride`, `AfterEvalGemfile` and `AfterLoadBundlerD`
    state what each step does to a builder `State`.
  - The class `Builder` performs the same steps in place. Its fields are
    shared objects: `DependencyList`, `SourceList` and `Console`.
  - Every `Builder` method is proved to end in the state the matching
    function gives.
- `Inject`: `inject!` and its loader, built the same way.
  - `Inject.Inject` hands the caller's own `DependencyList` to a fresh
    `Builder`, so every change is seen by the caller.

How errors are modelled: a raised exception is an `Error` in the `Run`
result. The state keeps every change made before the raise, as Ruby's
in-place mutation does.

Where the repository's tests and documentation disagree with the library
code, the model follows the code:

- The unknown-gem message has no quotes around the name.
- The warning is `** override_gem: <name>, <args>, caller: <file>`.
- `Injecting <file>...` is written for every file, unconditionally.

## Model

| member | source | states |
|---|---|---|
| Paths.Join | lib/bundler/inject.rb:47 | `File.join` is the directory, exactly one separator unless the directory already ends in one, then the name; an absolute directory stays absolute |
| Paths.Dirname | lib/bundler/inject/dsl_patch.rb:16 | `File.dirname` is never longer than the path, or is "." |
| Paths.ExpandPath | lib/bundler/inject/dsl_patch.rb:18 | an absolute path is kept; "~" is home; "~/x" is home, exactly one separator unless home already ends in one, then x; "" is the directory; any other relative path is the directory, exactly one separator unless the directory already ends in one, then the path; absolute directory and home give an absolute result |
| Paths.DirnameOfJoin | lib/bundler/inject.rb:53 | the directory of `File.join(dir, name)` is `dir` again |
| Ordering.Insert | lib/bundler/inject.rb:38 | inserting adds exactly the one element |
| Ordering.Sort | lib/bundler/inject.rb:38 | `sort` returns a permutation of its input |
| Ordering.InsertSorted | lib/bundler/inject.rb:38 | inserting into a sorted list keeps it sorted |
| Ordering.SortSorted | lib/bundler/inject.rb:38 | the result of `sort` is in ascending order and is a permutation of the input |
| Ordering.SortedUnique | lib/bundler/inject.rb:38 | two sorted permutations of the same strings are equal |
| Ordering.SortIsTheSortedPermutation | lib/bundler/inject.rb:38 | any sorted permutation of the input is exactly what `sort` returns |
| Gemfile.Glob | lib/bundler/inject.rb:38 | `Dir.glob(dir/*.rb)` holds no more paths than the directory has entries; Gemfile.GlobExact says which |
| Gemfile.MatchingExact | lib/bundler/inject.rb:38 | the pattern keeps every `*.rb` entry, joined to the directory, and nothing else |
| Gemfile.GlobExact | lib/bundler/inject.rb:38 | `Dir.glob(dir/*.rb)` holds every `*.rb` entry of the directory, joined to it, and nothing else |
| Gemfile.Error.Message | lib/bundler/inject/dsl_patch.rb:6 | the unknown-gem error reads "Trying to override unknown gem " followed by the name |
| Gemfile.Declare | lib/bundler/inject/dsl_patch.rb:19 | `gem` declares the name and requirements and keeps the options it was given; a `git` option makes a git source with that URI (and `ref`), otherwise `path` a path source with that path, and with neither the default source; the type is the `type` option, or "runtime" without one |
| Gemfile.LastEqual | lib/bundler/inject/dsl_patch.rb:8 | `delete` returns the last entry equal to the one found: no later entry is equal |
| Gemfile.FirstNamed | lib/bundler/inject/dsl_patch.rb:6 | `find` gives the first dependency with the name; none is found exactly when no dependency has the name |
| Gemfile.WithoutDependency | lib/bundler/inject/dsl_patch.rb:8 | `delete` never lengthens the list |
| Gemfile.WithoutDependencyConcat | lib/bundler/inject/dsl_patch.rb:8 | `delete` distributes over concatenation, so the surviving entries keep their order, duplicates or not |
| Gemfile.WithoutDependencyCount | lib/bundler/inject/dsl_patch.rb:8 | after `delete`, no entry equal to the deleted one is left, and every other entry occurs as often as before |
| Gemfile.WithoutUniqueEntry | lib/bundler/inject/dsl_patch.rb:8 | with unique names, `delete` removes exactly that entry and keeps the rest in order |
| Gemfile.Without | lib/bundler/inject/dsl_patch.rb:10-12 | `delete_if` never lengthens the list |
| Gemfile.WithoutCount | lib/bundler/inject/dsl_patch.rb:10-12 | after `delete_if`, no equal source is left, and every other source occurs as often as before |
| Gemfile.WithoutAbsent | lib/bundler/inject/dsl_patch.rb:10-12 | `delete_if` on a list without the source leaves the list as it was |
| Gemfile.WithoutConcat | lib/bundler/inject/dsl_patch.rb:10-12 | `delete_if` keeps the surviving sources in their original order, since it distributes over concatenation |
| DslPatch.RewritePath | lib/bundler/inject/dsl_patch.rb:18 | only a trailing options Hash with `:path` changes; its `:path` becomes the path expanded against the calling directory; requirements, keys and other options are unchanged |
| DslPatch.AfterOverride | lib/bundler/inject/dsl_patch.rb:4-23 | an empty list: nothing happens. An unknown name fails with `UnknownGem` if and only if no dependency has the name, and then changes nothing. On success the last dependency is the new declaration of the name with the rewritten arguments. Neither list grows beyond the replacement. At most one line is logged: the warning naming the gem, the rewritten arguments and the caller. A successful override logs it outside production, and none is logged in production |
| DslPatch.OverrideKeepsOthers | lib/bundler/inject/dsl_patch.rb:5-19 | for any list, duplicates included, a successful override leaves what `delete` leaves, followed by the declaration: every entry equal to the found one is gone, and every other entry occurs as often as before |
| DslPatch.OverrideReplacesEntry | lib/bundler/inject/dsl_patch.rb:8-19 | with unique names, override drops exactly the old entry, keeps the others in order, appends the new declaration and keeps names unique |
| DslPatch.OverrideCleansGitSource | lib/bundler/inject/dsl_patch.rb:8-13 | the source inspected is that of the entry `delete` returns; a git source leaves the source list; every other source stays as often as before; any other kind of source leaves the list unchanged |
| DslPatch.DeletedIsFoundWhenUnique | lib/bundler/inject/dsl_patch.rb:8 | with unique names, the entry `delete` returns is the one found |
| DslPatch.GitSourceOfLastDeletedEntry | lib/bundler/inject/dsl_patch.rb:8-13 | two equal entries where only the first is from git: the git source stays, because `delete` returns the second |
| DslPatch.WarningDoesNotChangeResult | lib/bundler/inject/dsl_patch.rb:19-21 | `RAILS_ENV` changes only the warning: dependencies, sources and success are the same |
| DslPatch.OverrideLastWins | lib/bundler/inject/dsl_patch.rb:4-23 | overriding a gem twice gives the dependency list of the second override alone |
| DslPatch.NestedEvalReadsNoDirectory | lib/bundler/inject/dsl_patch.rb:25-28 | a nested `eval_gemfile` reads no directory listing, so no bundler.d is loaded |
| DslPatch.TopLevelEvalLoadsItsBundlerD | lib/bundler/inject/dsl_patch.rb:25-28 | a top-level `eval_gemfile` of `dir/name` evaluates the file, then, if that succeeded, the files of `dir/bundler.d` once |
| DslPatch.LoadBundlerDIsShallow | lib/bundler/inject/dsl_patch.rb:30-34 | the loader reads only `gemfile_dir/bundler.d` and no deeper directory |
| DslPatch.AfterLoadBundlerDAsWritten | lib/bundler/inject/dsl_patch.rb:30-34 | as written, the loader raises if and only if a file matches, and it changes nothing |
| DslPatch.AfterLoadBundlerD | lib/bundler/inject/dsl_patch.rb:30-34 | the corrected loader raises only what evaluating a file raises (an unknown gem or a missing file), never `ArgumentError` as the loader as written does; DslPatch.LoadBundlerDIsShallow says it reads only `gemfile_dir/bundler.d` |
| DslPatch.InstrsRaiseOnlyUnknownGem | lib/bundler/inject/dsl_patch.rb:6 | in this model, where `gem` never raises, a file's lines raise nothing but an unknown gem |
| DslPatch.SiblingsRaiseOnlyEvaluationErrors | lib/bundler/inject/dsl_patch.rb:33 | in this model, where `gem` never raises, evaluating the bundler.d files raises only an unknown gem or a missing file |
| DslPatch.AfterEvalGemfile | lib/bundler/inject/dsl_patch.rb:25-28 | a nested evaluation, or one whose file fails, is Bundler's evaluation alone; DslPatch.TopLevelEvalLoadsItsBundlerD covers the top-level case |
| DslPatch.AsWrittenCounterexample | lib/bundler/inject/dsl_patch.rb:33 | with `/app/bundler.d/extra.rb` declaring `gem "omg"`, the loader as written raises; the corrected loader declares `omg` |
| DslPatch.OverrideAnnouncesNothing | lib/bundler/inject/dsl_patch.rb:19-21 | `override_gem` writes no `Injecting` line |
| DslPatch.EvalGemfileAnnouncesNothing | lib/bundler/inject/dsl_patch.rb:25-28 | `eval_gemfile` writes no `Injecting` line |
| DslPatch.Console.Emit | lib/bundler/inject/dsl_patch.rb:20 | a written line is appended to the console |
| DslPatch.Find | lib/bundler/inject/dsl_patch.rb:6 | the loop finds what `FirstNamed` specifies |
| DslPatch.Delete | lib/bundler/inject/dsl_patch.rb:8 | the loop leaves what `WithoutDependency` specifies and returns the last deleted entry, or none when nothing was equal |
| DslPatch.DeleteIf | lib/bundler/inject/dsl_patch.rb:10-12 | the loop leaves what `Without` specifies |
| DslPatch.Builder.constructor | lib/bundler/inject.rb:7-10 | the builder shares the given list objects, not copies |
| DslPatch.Builder.Gem | lib/bundler/inject/dsl_patch.rb:19 | `gem` appends one declaration |
| DslPatch.Builder.OverrideGem | lib/bundler/inject/dsl_patch.rb:4-23 | the in-place override ends in the state and error of `AfterOverride`: nothing on an empty list, `UnknownGem` for a missing name, otherwise the replacement |
| DslPatch.Builder.Replace | lib/bundler/inject/dsl_patch.rb:8-21 | delete, inspect the returned entry's source, rewrite, `gem` and warn end in the state `Replaced` gives |
| DslPatch.Builder.Perform | lib/bundler/inject/dsl_patch.rb:26 | one Gemfile line changes the builder as `AfterInstr` says |
| DslPatch.Builder.Evaluate | lib/bundler/inject/dsl_patch.rb:26 | Bundler's evaluation runs the file's lines in order and stops at the first error |
| DslPatch.Builder.EvalGemfile | lib/bundler/inject/dsl_patch.rb:25-28 | the in-place evaluation ends as `AfterEvalGemfile` says |
| DslPatch.Builder.LoadBundlerD | lib/bundler/inject/dsl_patch.rb:30-34 | the loop evaluates each sibling file as nested and ends as the corrected `AfterLoadBundlerD` says |
| Inject.GlobalBundlerD | lib/bundler/inject.rb:46-48 | the global directory is home, exactly one separator unless home already ends in one, then `.bundler.d`; Inject.GlobalBundlerDInHome says it lies directly in home |
| Inject.LocalBundlerD | lib/bundler/inject.rb:52-54 | the local directory is the Gemfile's directory, exactly one separator unless that already ends in one, then `bundler.d`; Inject.LocalBundlerDBesideGemfile says it lies beside the Gemfile |
| Inject.GlobalBundlerDInHome | lib/bundler/inject.rb:46-48 | the global directory is `.bundler.d` directly inside home |
| Inject.LocalBundlerDBesideGemfile | lib/bundler/inject.rb:52-54 | the local directory is `bundler.d` beside the Gemfile |
| Inject.InjectedFiles | lib/bundler/inject.rb:38 | the files taken are in ascending order and are a permutation of the glob |
| Inject.InjectedFilesExact | lib/bundler/inject.rb:38 | a path is taken if and only if it is a `*.rb` entry directly in the directory |
| Inject.InjectFileAnnouncesIt | lib/bundler/inject.rb:39-40 | each file yields exactly one `Injecting` line naming it |
| Inject.InjectFilesAnnounceLast | lib/bundler/inject.rb:38-41 | the last file of a pass adds one `Injecting` line, naming it |
| Inject.InjectFilesAnnounceEach | lib/bundler/inject.rb:38-41 | a successful pass announces exactly the files, in the order they are evaluated |
| Inject.AfterInjectDir | lib/bundler/inject.rb:37-42 | with no file nothing changes; Inject.InjectFilesAnnounceEach gives the announcements of a pass |
| Inject.AfterInject | lib/bundler/inject.rb:5-34 | without `BUNDLE_GEMFILE`, `inject!` raises; Inject.GlobalBeforeLocal and Inject.NothingToInject give the order and the empty case |
| Inject.GlobalBeforeLocal | lib/bundler/inject.rb:32-33 | a successful `inject!` needs `BUNDLE_GEMFILE`, and announces all global files, then all local files |
| Inject.NothingToInject | lib/bundler/inject.rb:38 | with no `*.rb` file in either directory, `inject!` changes nothing |
| Inject.InjectFile | lib/bundler/inject.rb:39-40 | announcing a file and then evaluating it ends as `AfterInjectFile` says |
| Inject.LoadBundlerD | lib/bundler/inject.rb:37-42 | the loop announces and then evaluates each sorted file, ending as `AfterInjectDir` says |
| Inject.Inject | lib/bundler/inject.rb:5-34 | the caller's own dependency list, sources and console end as `AfterInject` says: global directory first, then local |

## Left out

- Bundler internals are not part of this model:
  - how `gem` registers a source and checks duplicates (`gem` only appends a declaration here);
  - `DSLError` wrapping, the `contents` argument, `@gemfiles`, `ruby_version` and `optional_groups`;
  - the plugin hook and `prepend`.
- File system and environment reads are parameters: `Dir.glob` listings, `Dir.home`, `BUNDLE_GEMFILE` and `RAILS_ENV`.
- A Gemfile's contents are a list of `gem` and `override_gem` lines. Any other Ruby code in a Gemfile is not modelled.
- `caller_locations` is not modelled; the calling file is a parameter. The caller is taken to be the file being evaluated.
- `File.expand_path` does not normalise `.`, `..`, `~user`, a relative base directory, or repeated or trailing separators: `vendor/x/` keeps its trailing slash, which Ruby strips. `File.dirname` does not collapse trailing or repeated slashes.
- The text of the warning is not modelled, and neither is `Array#inspect` of its arguments. The model logs the name, the rewritten arguments and the caller.
- `Gem::Dependency#==` compares name, type and requirement strings as given, with no requirement normalisation.
- DslPatch.RewritePath: options keys are strings, so Symbol and String keys are not told apart. The code rewrites only the Symbol key `:path`; the model also rewrites a `"path" =>` key.
- DslPatch.AfterOverride: `File.expand_path` never raises here. The code can raise there, for an unknown `~user` or an unset HOME, after the entry is already deleted.
- DslPatch.AfterEvalGemfile: uses the corrected loader, so a top-level evaluation loads its `bundler.d`. As written it raises `ArgumentError` at the first `*.rb` file there. The as-written loader is DslPatch.AfterLoadBundlerDAsWritten.
- DslPatch.Builder.EvalGemfile: ends as DslPatch.AfterEvalGemfile does, so it too uses the corrected loader.
- Inject.AfterInject: each injected file is evaluated with the corrected loader. With `~/.bundler.d/a.rb` and a `*.rb` file in `~/.bundler.d/bundler.d`, the code as written raises after evaluating `a.rb`; the model evaluates both.
- Inject.Inject: ends as Inject.AfterInject does, with the same difference from the code as written.
- Inject.LoadBundlerD: ends as Inject.AfterInjectDir does, with the same difference from the code as written.
- `Dir.glob` order inside `DslPatch` is taken to be the listing order. `Inject` sorts, so its order does not depend on this.
- `String#<=>` compares bytes. The model compares characters, which orders UTF-8 text the same way.
- Paths.Dirname: the contract only bounds the length. What it returns for a joined path is stated by Paths.DirnameOfJoin.
- Gemfile.WithoutDependency: the contract only bounds the length. What `delete` keeps is stated by Gemfile.WithoutDependencyCount (counts, any list) and Gemfile.WithoutDependencyConcat (order, any list). Gemfile.WithoutUniqueEntry states the exact result for unique names.
- Gemfile.Glob: the contract only bounds the length. Which paths it holds is stated by Gemfile.GlobExact.
- Gemfile.Without: the contract only bounds the length. What `delete_if` keeps is stated by Gemfile.WithoutCount, Gemfile.WithoutAbsent and Gemfile.WithoutConcat.
- Three behaviours the tests expect are absent from the library code, so they are not modelled:
  - `ensure_gem`;
  - the setting that silences the override warning;
  - a quoted gem name in the error message.

## Findings

| source | as written | input that shows it | evidently intended | confidence | as-written member | corrected member |
|---|---|---|---|---|---|---|
| lib/bundler/inject/dsl_patch.rb:33 | `File.expand_path(f, gemfile_dir, true)` passes three arguments to a method that takes one or two, so `ArgumentError` is raised as soon as any file matches | a project `/app` whose `bundler.d` holds `extra.rb` | `eval_gemfile(File.expand_path(f, gemfile_dir), nil, true)`: each file evaluated as a nested Gemfile | not executed | DslPatch.AfterLoadBundlerDAsWritten (shown by DslPatch.AsWrittenCounterexample) | DslPatch.AfterLoadBundlerD (used by DslPatch.Builder.LoadBundlerD) |
