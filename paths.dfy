/** Path strings as Ruby's File.join, File.dirname, File.expand_path and the
    `*.rb` pattern of Dir.glob treat them, on '/'-separated POSIX paths. */
module Paths {

  predicate IsAbsolute(p: string) {
    |p| > 0 && p[0] == '/'
  }

  /** A directory path in the form File.dirname produces: the root, or a
      non-empty path without a trailing separator. */
  predicate IsDirectoryPath(d: string) {
    d == "/" || (d != [] && d[|d| - 1] != '/')
  }

  predicate EndsWithSeparator(p: string) {
    |p| > 0 && p[|p| - 1] == '/'
  }

  /** File.join(dir, name) for a relative component `name`: exactly one
      separator between the two parts. */
  function Join(dir: string, name: string): (r: string)
    ensures |r| == |dir| + |name| + (if EndsWithSeparator(dir) then 0 else 1)
    ensures r[..|dir|] == dir && r[|r| - |name|..] == name
    ensures !EndsWithSeparator(dir) ==> r[|dir|] == '/'
    ensures IsAbsolute(dir) ==> IsAbsolute(r)
  {
    if EndsWithSeparator(dir) then dir + name else dir + "/" + name
  }

  /** Index of the last separator in p, or -1 when there is none. */
  function LastSlash(p: string): (k: int)
    ensures -1 <= k < |p|
    ensures k >= 0 ==> p[k] == '/'
    ensures forall j :: k < j < |p| ==> p[j] != '/'
  {
    if p == [] then -1
    else if p[|p| - 1] == '/' then |p| - 1
    else LastSlash(p[..|p| - 1])
  }

  /** File.dirname: everything before the last separator; "/" for a file
      directly under the root; "." for a bare file name. */
  function Dirname(p: string): (r: string)
    ensures |r| <= |p| || r == "."
  {
    var k := LastSlash(p);
    if k < 0 then "." else if k == 0 then "/" else p[..k]
  }

  /** File.expand_path(p, dir) with the home directory `home`: "~" and
      "~/..." expand against home, an absolute path is kept, an empty path
      names dir itself, and any other path is joined to dir. */
  function ExpandPath(p: string, dir: string, home: string): (r: string)
    ensures IsAbsolute(p) ==> r == p
    ensures p == "~" ==> r == home
    ensures p == [] ==> r == dir
    ensures |p| >= 2 && p[..2] == "~/" ==>
              && |home| + |p| - 2 <= |r| <= |home| + |p| - 1 && r[..|home|] == home && r[|r| - (|p| - 2)..] == p[2..]
              && (EndsWithSeparator(home) ==> |r| == |home| + |p| - 2)
              && (!EndsWithSeparator(home) ==> |r| == |home| + |p| - 1 && r[|home|] == '/')
    ensures p != [] && p[0] != '/' && p[0] != '~' ==>
              && |dir| + |p| <= |r| <= |dir| + |p| + 1 && r[..|dir|] == dir && r[|r| - |p|..] == p
              && (EndsWithSeparator(dir) ==> |r| == |dir| + |p|)
              && (!EndsWithSeparator(dir) ==> |r| == |dir| + |p| + 1 && r[|dir|] == '/')
    ensures IsAbsolute(dir) && IsAbsolute(home) ==> IsAbsolute(r)
  {
    if p == "~" then home
    else if |p| >= 2 && p[..2] == "~/" then Join(home, p[2..])
    else if IsAbsolute(p) then p
    else if p == [] then dir
    else Join(dir, p)
  }

  /** A directory entry the pattern `*.rb` matches: no separator, the
      `.rb` extension, and no leading dot (Dir.glob's `*` skips dotfiles). */
  predicate IsRubyFileName(e: string) {
    '/' !in e && |e| >= 3 && e[|e| - 3..] == ".rb" && e[0] != '.'
  }

  /** The directory of a file found by joining a directory path and a plain
      name is that directory again. */
  lemma DirnameOfJoin(dir: string, name: string)
    requires IsDirectoryPath(dir)
    requires name != [] && '/' !in name
    ensures Dirname(Join(dir, name)) == dir
  {
    var p := Join(dir, name);
    if dir == "/" {
      assert p == "/" + name;
      assert forall j :: 0 < j < |p| ==> p[j] == name[j - 1];
      assert LastSlash(p) == 0;
    } else {
      assert p == dir + "/" + name;
      assert p[|dir|] == '/';
      assert forall j :: |dir| < j < |p| ==> p[j] == name[j - |dir| - 1];
      assert LastSlash(p) == |dir|;
      assert p[..|dir|] == dir;
    }
  }

  /** Joining a name that does not end in a separator to a directory path
      gives a directory path again. */
  lemma JoinIsDirectoryPath(dir: string, name: string)
    requires IsDirectoryPath(dir)
    requires name != [] && name[|name| - 1] != '/'
    ensures IsDirectoryPath(Join(dir, name))
  {
    var p := Join(dir, name);
    assert p[|p| - 1] == name[|name| - 1];
  }
}
