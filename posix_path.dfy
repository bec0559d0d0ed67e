/** The parts of Python's `os.path` (POSIX flavour) that the two scripts use
    to name files: `join` of two components, `basename` and the root half of
    `splitext`, all built on `str.rfind`. */
module PosixPath {
  import opened Base

  /** `s.rfind(c)`: the index of the last `c` in `s`, or `None` for -1. */
  function LastIndexOf(s: string, c: char): (r: Option<nat>)
    ensures r.None? <==> c !in s
    ensures r.Some? ==> r.value < |s| && s[r.value] == c && c !in s[r.value + 1..]
  {
    if s == [] then None
    else if s[|s| - 1] == c then Some(|s| - 1)
    else
      var r := LastIndexOf(s[..|s| - 1], c);
      assert s == s[..|s| - 1] + [s[|s| - 1]];
      assert r.Some? ==> s[r.value + 1..] == s[..|s| - 1][r.value + 1..] + [s[|s| - 1]];
      r
  }

  /** What `os.path.join(dir, name)` puts in front of a relative `name`. */
  function DirPrefix(dir: string): (r: string)
    ensures r == [] || r[|r| - 1] == '/'
  {
    if dir == [] || dir[|dir| - 1] == '/' then dir else dir + "/"
  }

  /** `os.path.join(dir, name)`: an absolute `name` replaces `dir`, otherwise
      a `/` is inserted unless `dir` is empty or already ends with one. */
  function Join(dir: string, name: string): string {
    if |name| > 0 && name[0] == '/' then name
    else DirPrefix(dir) + name
  }

  /** `os.path.basename(p)`: everything after the last `/`. */
  function Basename(p: string): (r: string)
    ensures '/' !in r
  {
    match LastIndexOf(p, '/')
    case None => p
    case Some(i) => p[i + 1..]
  }

  /** The first half of `os.path.splitext(p)`: `p` up to its last `.`, when
      that dot lies in the last path component and is preceded there by some
      character other than a dot; otherwise `p` itself. */
  function SplitextRoot(p: string): string {
    var start := match LastIndexOf(p, '/') case None => 0 case Some(i) => i + 1;
    match LastIndexOf(p, '.')
    case None => p
    case Some(dot) =>
      if start <= dot && !AllDots(p[start..dot]) then p[..dot] else p
  }

  /** Every character of `s` is a dot (so a dot after them starts no extension). */
  predicate AllDots(s: string) {
    s == [] || (s[0] == '.' && AllDots(s[1..]))
  }

  /** Text without `c` appended after `s` leaves the last `c` where it was. */
  lemma {:induction false} LastIndexOfAppend(s: string, t: string, c: char)
    requires c !in t
    ensures LastIndexOf(s + t, c) == LastIndexOf(s, c)
    decreases |t|
  {
    if t != [] {
      var u := s + t;
      assert u[|u| - 1] == t[|t| - 1];
      assert u[..|u| - 1] == s + t[..|t| - 1];
      LastIndexOfAppend(s, t[..|t| - 1], c);
    } else {
      assert s + t == s;
    }
  }

  /** A name without `/` joined onto a directory is found again by `basename`. */
  lemma BasenameJoin(dir: string, name: string)
    requires '/' !in name
    ensures Join(dir, name) == DirPrefix(dir) + name
    ensures Basename(Join(dir, name)) == name
  {
    var pre := DirPrefix(dir);
    LastIndexOfAppend(pre, name, '/');
    if pre != [] {
      assert LastIndexOf(pre, '/') == Some(|pre| - 1);
    }
    assert (pre + name)[|pre|..] == name;
  }

  /** Two names without `/` joined onto one directory give one path only if
      they are the same name. */
  lemma JoinInjective(dir: string, a: string, b: string)
    requires '/' !in a && '/' !in b
    requires Join(dir, a) == Join(dir, b)
    ensures a == b
  {
    BasenameJoin(dir, a);
    BasenameJoin(dir, b);
  }

  /** A full-name with `.result` appended has that full-name as its root. */
  lemma SplitextRootOfResult(fullname: FullName)
    ensures '/' !in fullname + ".result"
    ensures SplitextRoot(fullname + ".result") == fullname
  {
    var name := fullname + ".result";
    assert name == (fullname + ".") + "result";
    assert '.' !in "result";
    LastIndexOfAppend(fullname + ".", "result", '.');
    var dot := |fullname|;
    assert LastIndexOf(fullname + ".", '.') == Some(dot);
    assert LastIndexOf(name, '.') == Some(dot);
    assert '/' !in name by {
      forall k | 0 <= k < |name| ensures name[k] != '/' {
        if k < |fullname| { assert name[k] == fullname[k]; }
      }
    }
    assert LastIndexOf(name, '/') == None;
    assert name[..dot] == fullname;
    assert !AllDots(fullname);
  }

  /** The result file `<fullname>.result` written beside an image in `dir`
      names that submission again: the root of its basename is the full-name. */
  lemma ResultFileNamesSubmission(dir: string, fullname: FullName)
    ensures SplitextRoot(Basename(Join(dir, fullname + ".result"))) == fullname
  {
    SplitextRootOfResult(fullname);
    BasenameJoin(dir, fullname + ".result");
  }
}
