/** The POSIX path operations the source calls through `os.path`:
    `basename`, `dirname` and `join`, written as Python's `posixpath`
    module defines them. */
module PosixPath {

  /** Index of the last `/` in `p`, or -1 when there is none (`p.rfind("/")`). */
  function LastSlash(p: string): (i: int)
    ensures -1 <= i < |p|
    ensures 0 <= i ==> p[i] == '/'
    ensures forall k :: i < k < |p| ==> p[k] != '/'
  {
    if p == [] then -1
    else if p[|p| - 1] == '/' then |p| - 1
    else LastSlash(p[..|p| - 1])
  }

  lemma {:induction false} LastSlashAppend(x: string, y: string)
    requires '/' !in y
    ensures LastSlash(x + y) == LastSlash(x)
    decreases |y|
  {
    if y == [] {
      assert x + y == x;
    } else {
      var shorter := y[..|y| - 1];
      assert (x + y)[..|x + y| - 1] == x + shorter;
      assert (x + y)[|x + y| - 1] == y[|y| - 1];
      LastSlashAppend(x, shorter);
    }
  }

  predicate AllSlashes(s: string) {
    forall i :: 0 <= i < |s| ==> s[i] == '/'
  }

  /** The final component of `p`: everything after its last `/`. */
  function BaseName(p: string): (r: string)
    ensures '/' !in r
    ensures |r| <= |p| && p[|p| - |r|..] == r
    ensures LastSlash(p) < 0 ==> r == p
    ensures |r| < |p| ==> p[|p| - |r| - 1] == '/'
  {
    p[LastSlash(p) + 1..]
  }

  /** `s` without its trailing run of slashes (`s.rstrip("/")`). */
  function StripTrailingSlashes(s: string): (r: string)
    ensures r <= s
    ensures AllSlashes(s[|r|..])
    ensures r != [] ==> r[|r| - 1] != '/'
  {
    if s != [] && s[|s| - 1] == '/' then StripTrailingSlashes(s[..|s| - 1]) else s
  }

  /** Everything up to the last `/` of `p`, with trailing slashes removed
      unless the head consists of slashes only. The path is the directory, a
      run of slashes and the base name, in that order; the directory is empty
      exactly when the path has no `/`, and otherwise either ends in a
      character other than `/` or is a run of slashes that takes the whole
      head. */
  function DirName(p: string): (r: string)
    ensures r <= p
    ensures |r| + |BaseName(p)| <= |p| && AllSlashes(p[|r|..|p| - |BaseName(p)|])
    ensures r == [] <==> LastSlash(p) < 0
    ensures r == [] || r[|r| - 1] != '/' || AllSlashes(r)
    ensures r != [] && AllSlashes(r) ==> |r| + |BaseName(p)| == |p|
  {
    var head := p[..LastSlash(p) + 1];
    if head != [] && !AllSlashes(head) then StripTrailingSlashes(head) else head
  }

  /** `os.path.join(a, b)`: an absolute `b` replaces `a`; otherwise one `/`
      separates them unless `a` is empty or already ends in `/`. */
  function Join(a: string, b: string): (r: string)
    ensures b != [] && b[0] == '/' ==> r == b
    ensures !(b != [] && b[0] == '/') ==>
      && (|r| == |a| + |b| || (|r| == |a| + |b| + 1 && r[|a|] == '/'))
      && r[..|a|] == a && r[|r| - |b|..] == b
      && (|r| == |a| + |b| + 1 <==> a != [] && a[|a| - 1] != '/')
  {
    if b != [] && b[0] == '/' then b
    else if a == [] || a[|a| - 1] == '/' then a + b
    else a + "/" + b
  }

  /** Joining a directory as `DirName` produces it with a plain file name
      gives a path whose base name is that file name and whose directory is
      the same directory again. */
  lemma JoinDirNameFileName(p: string, name: string)
    requires name != [] && '/' !in name
    ensures BaseName(Join(DirName(p), name)) == name
    ensures DirName(Join(DirName(p), name)) == DirName(p)
  {
    var d := DirName(p);
    var c := Join(d, name);
    if d == [] {
      assert c == name;
      LastSlashAppend([], name);
      assert [] + name == name;
    } else if d[|d| - 1] == '/' {
      assert c == d + name;
      LastSlashAppend(d, name);
      assert c[..LastSlash(c) + 1] == d;
    } else {
      assert c == (d + "/") + name;
      LastSlashAppend(d + "/", name);
      var head := c[..LastSlash(c) + 1];
      assert head == d + "/";
      assert !AllSlashes(head) by { assert head[|d| - 1] != '/'; }
      StripOneSlash(d);
    }
  }

  lemma StripOneSlash(d: string)
    requires d != [] && d[|d| - 1] != '/'
    ensures StripTrailingSlashes(d + "/") == d
  {
    assert (d + "/")[..|d + "/"| - 1] == d;
  }
}
