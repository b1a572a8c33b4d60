/** The POSIX `path` functions the tool calls (dirname, basename, join), on
    paths in the normal form path.resolve produces. */
module Paths {

  /** An absolute path with no empty segment and no trailing slash (the
      root itself is handled by IsDirectory). path.resolve's results have
      this shape; they also hold no `.` or `..` segment, which this
      predicate does not require: such a segment is an ordinary name here,
      and Join does not normalise it. */
  predicate IsResolved(p: string) {
    && |p| >= 2 && p[0] == '/' && p[|p| - 1] != '/'
    && forall i :: 0 <= i < |p| - 1 ==> !(p[i] == '/' && p[i + 1] == '/')
  }

  /** A resolved directory: the root or a resolved path. */
  predicate IsDirectory(d: string) {
    d == "/" || IsResolved(d)
  }

  /** A single path segment. */
  predicate IsFileName(n: string) {
    |n| > 0 && '/' !in n
  }

  /** The index of the last '/' of `s`, or -1 when there is none. */
  function LastSlash(s: string): (r: int)
    ensures -1 <= r < |s|
    ensures r >= 0 ==> s[r] == '/'
    ensures forall i :: r < i < |s| ==> s[i] != '/'
  {
    if |s| == 0 then -1
    else if s[|s| - 1] == '/' then |s| - 1
    else LastSlash(s[..|s| - 1])
  }

  /** path.dirname: everything before the last segment. */
  function Dirname(p: string): string {
    var k := LastSlash(p);
    if k < 0 then "." else if k == 0 then "/" else p[..k]
  }

  /** path.basename without an extension: the last segment. */
  function Basename(p: string): string {
    p[LastSlash(p) + 1..]
  }

  /** path.basename's extension argument, applied to a segment: `ext` is
      removed when the segment ends with it and is longer than it. */
  function StripExt(name: string, ext: string): (r: string)
    ensures |name| > |ext| && name[|name| - |ext|..] == ext ==> r + ext == name
    ensures !(|name| > |ext| && name[|name| - |ext|..] == ext) ==> r == name
    ensures |name| > 0 ==> |r| > 0
  {
    if |name| > |ext| && name[|name| - |ext|..] == ext then
      assert name == name[..|name| - |ext|] + ext;
      name[..|name| - |ext|]
    else name
  }

  /** path.join of a resolved directory and one segment. */
  function Join(dir: string, name: string): string {
    if |dir| > 0 && dir[|dir| - 1] == '/' then dir + name else dir + "/" + name
  }

  /** Joining a directory and a segment can be undone by dirname and basename. */
  lemma JoinSplits(d: string, n: string)
    requires IsDirectory(d) && IsFileName(n)
    ensures Dirname(Join(d, n)) == d && Basename(Join(d, n)) == n
  {
    var p := Join(d, n);
    var prefix := p[..|p| - |n|];
    assert p == prefix + n;
    var k := |prefix| - 1;
    assert p[k] == '/';
    assert forall i :: k < i < |p| ==> p[i] == n[i - |prefix|];
    assert LastSlash(p) == k;
    if d == "/" {
      assert k == 0;
    } else {
      assert prefix == d + "/";
      assert p[..k] == d;
    }
  }

  /** Paths built by Join are equal exactly when their parts are. */
  lemma JoinInjective(d1: string, n1: string, d2: string, n2: string)
    requires IsDirectory(d1) && IsFileName(n1) && IsDirectory(d2) && IsFileName(n2)
    ensures Join(d1, n1) == Join(d2, n2) <==> d1 == d2 && n1 == n2
  {
    JoinSplits(d1, n1);
    JoinSplits(d2, n2);
  }

  /** A resolved path is its dirname joined with its basename. */
  lemma ResolvedSplits(p: string)
    requires IsResolved(p)
    ensures IsDirectory(Dirname(p)) && IsFileName(Basename(p))
    ensures Join(Dirname(p), Basename(p)) == p
  {
    var k := LastSlash(p);
    assert k >= 0 by { assert p[0] == '/'; }
    assert k < |p| - 1;
    var name := Basename(p);
    assert '/' !in name by {
      forall i | 0 <= i < |name| ensures name[i] != '/' { assert name[i] == p[k + 1 + i]; }
    }
    if k > 0 {
      var d := p[..k];
      assert k >= 2 by { assert p[0] == '/'; assert p[1] != '/'; }
      assert d[|d| - 1] != '/' by { assert p[k] == '/'; assert p[k - 1] != '/'; }
      assert IsResolved(d);
      assert Join(d, name) == d + "/" + name;
      assert p == p[..k] + [p[k]] + p[k + 1..];
    } else {
      assert p == [p[0]] + p[1..];
    }
  }
}
