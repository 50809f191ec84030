/** The two `os.path` functions the scripts use, as `posixpath` defines them. */
module PosixPath {

  /** `os.path.join(a, b)`: an absolute `b` replaces `a`; otherwise `b` is appended,
      with a '/' in between unless `a` is empty or already ends with one. */
  function Join(a: string, b: string): string
  {
    if b != [] && b[0] == '/' then b
    else if a == [] || a[|a| - 1] == '/' then a + b
    else a + "/" + b
  }

  /** Whatever `a` is, the joined path ends with `b`; unless `b` is absolute, it starts
      with `a`. */
  lemma {:induction false} JoinEndsWith(a: string, b: string)
    ensures |Join(a, b)| >= |b| && Join(a, b)[|Join(a, b)| - |b|..] == b
    ensures (b == [] || b[0] != '/') ==> |Join(a, b)| >= |a| && Join(a, b)[..|a|] == a
  {
  }

  /** Joining a relative `b` onto `a` puts one '/' between them, unless `a` is empty or
      already ends with one. */
  lemma {:induction false} JoinRelative(a: string, b: string)
    requires b == [] || b[0] != '/'
    ensures a != [] && a[|a| - 1] != '/' ==> Join(a, b) == a + "/" + b
    ensures a == [] || a[|a| - 1] == '/' ==> Join(a, b) == a + b
  {
  }

  /** Position just after the last '/' of `p`, or 0 when there is none. */
  function AfterLastSlash(p: string): (i: nat)
    ensures i <= |p|
    ensures i > 0 ==> p[i - 1] == '/'
    ensures forall j :: i <= j < |p| ==> p[j] != '/'
  {
    if p == [] then 0
    else if p[|p| - 1] == '/' then |p|
    else AfterLastSlash(p[..|p| - 1])
  }

  /** `os.path.basename(p)`: what follows the last '/'. It starts at `AfterLastSlash(p)`,
      right after the last '/' or at the start of a path without one. */
  function Basename(p: string): (r: string)
    ensures '/' !in r
    ensures |r| <= |p| && p[|p| - |r|..] == r
    ensures |p| - |r| == AfterLastSlash(p)
    ensures '/' !in p ==> r == p
  {
    p[AfterLastSlash(p)..]
  }

  /** A basename is a relative path: it does not start with '/'. */
  lemma {:induction false} BasenameRelative(p: string)
    ensures Basename(p) == [] || Basename(p)[0] != '/'
  {
    var b := Basename(p);
    if b != [] {
      assert b[0] in b;
    }
  }

  /** Joining a basename onto `dir` never discards `dir`: a basename is relative. */
  lemma {:induction false} JoinBasename(dir: string, v: string)
    ensures Join(dir, Basename(v)) ==
      if dir != [] && dir[|dir| - 1] != '/' then dir + "/" + Basename(v) else dir + Basename(v)
  {
    BasenameRelative(v);
  }
}
