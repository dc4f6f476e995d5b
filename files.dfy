/** The part of the file system the program touches: Windows paths
    (`filepath.Join`, `filepath.Base`) and a disk holding whole files. */
module Files {
  import opened Common

  /** Windows' `filepath.Separator`. */
  const Separator: char := '\\'

  /** Windows accepts both slashes as separators. */
  predicate IsPathSeparator(c: char) {
    c == '\\' || c == '/'
  }

  predicate NoSeparator(s: string) {
    forall k :: 0 <= k < |s| ==> !IsPathSeparator(s[k])
  }

  /** `filepath.Join(dir, name)`: the non-empty elements with a separator
      between them. */
  function JoinPath(dir: string, name: string): string
  {
    if dir == "" then name
    else if name == "" then dir
    else dir + [Separator] + name
  }

  /** A joined path ends with the name and, when both parts are present,
      is the directory, one separator and the name. */
  lemma JoinPathShape(dir: string, name: string)
    ensures var p := JoinPath(dir, name);
      && |p| >= |name| && p[|p| - |name|..] == name
      && (dir != "" && name != "" ==> |p| == |dir| + 1 + |name| && p[..|dir|] == dir && p[|dir|] == Separator)
  {
  }

  /** Names are not rewritten on the way: under a fixed directory, distinct
      names never meet at one path. */
  lemma JoinPathInjective(dir: string, a: string, b: string)
    requires dir != "" && a != "" && b != ""
    requires JoinPath(dir, a) == JoinPath(dir, b)
    ensures a == b
  {
    var p := JoinPath(dir, a);
    JoinPathShape(dir, a);
    JoinPathShape(dir, b);
    assert |a| == |b|;
    assert a == p[|p| - |a|..] == b;
  }

  /** `s` with its trailing separators removed. */
  function StripTrailingSeparators(s: string): (r: string)
    ensures |r| <= |s| && r == s[..|r|]
    ensures r == [] || !IsPathSeparator(r[|r| - 1])
    ensures forall k :: |r| <= k < |s| ==> IsPathSeparator(s[k])
  {
    if s != [] && IsPathSeparator(s[|s| - 1]) then StripTrailingSeparators(s[..|s| - 1]) else s
  }

  /** Number of characters at the end of `s` that are not separators. */
  function LastElementLength(s: string): (n: nat)
    ensures n <= |s| && NoSeparator(s[|s| - n..])
    ensures n < |s| ==> IsPathSeparator(s[|s| - 1 - n])
  {
    if s == [] || IsPathSeparator(s[|s| - 1]) then 0
    else
      var t := s[..|s| - 1];
      var n := 1 + LastElementLength(t);
      NoSeparatorExtend(s, n - 1);
      n
  }

  /** A separator-free tail of `s` minus its last character stays
      separator-free with that character put back. */
  lemma NoSeparatorExtend(s: string, m: nat)
    requires m < |s| && !IsPathSeparator(s[|s| - 1])
    requires NoSeparator(s[..|s| - 1][|s| - 1 - m..])
    ensures NoSeparator(s[|s| - (m + 1)..])
  {
    var t := s[..|s| - 1];
    assert s[|s| - (m + 1)..] == t[|t| - m..] + [s[|s| - 1]];
  }

  /** `filepath.Base`: the last element of `p` once trailing separators are
      dropped; "." for the empty path and a lone separator for a path made
      only of separators. */
  function Base(p: string): (b: string)
    ensures p == "" ==> b == "."
    ensures b == [Separator] || (b != [] && NoSeparator(b))
    ensures var q := StripTrailingSeparators(p);
      p != "" && q != [] ==> |b| <= |q| && b == q[|q| - |b|..] && (|b| == |q| || IsPathSeparator(q[|q| - |b| - 1]))
    ensures p != "" && StripTrailingSeparators(p) == [] ==> b == [Separator]
  {
    if p == "" then "."
    else
      var q := StripTrailingSeparators(p);
      if q == [] then [Separator] else q[|q| - LastElementLength(q)..]
  }

  /** The last element has length `k` when the final `k` characters hold no
      separator and are preceded by one (or by nothing). */
  lemma {:induction false} LastElementLengthIs(s: string, k: nat)
    requires k <= |s| && NoSeparator(s[|s| - k..])
    requires k == |s| || IsPathSeparator(s[|s| - 1 - k])
    ensures LastElementLength(s) == k
    decreases k
  {
    if k > 0 {
      assert s[|s| - 1] == s[|s| - k..][k - 1];
      var t := s[..|s| - 1];
      var u, v := t[|t| - (k - 1)..], s[|s| - k..];
      forall j | 0 <= j < |u|
        ensures !IsPathSeparator(u[j])
      {
        assert u[j] == v[j];
      }
      if k < |s| {
        assert t[|t| - 1 - (k - 1)] == s[|s| - 1 - k];
      }
      LastElementLengthIs(t, k - 1);
    }
  }

  /** The base of a joined path is the name joined last. */
  lemma BaseOfJoin(dir: string, name: string)
    requires name != "" && NoSeparator(name)
    ensures Base(JoinPath(dir, name)) == name
  {
    var p := JoinPath(dir, name);
    JoinPathShape(dir, name);
    assert p[|p| - 1] == p[|p| - |name|..][|name| - 1] == name[|name| - 1];
    assert !IsPathSeparator(p[|p| - 1]);
    assert StripTrailingSeparators(p) == p;
    LastElementLengthIs(p, |name|);
    assert Base(p) == p[|p| - |name|..];
  }

  /** The files on disk, as a map from path to contents. Directories are
      implicit. */
  class Disk {
    var files: map<string, Bytes>

    constructor (initial: map<string, Bytes>)
      ensures files == initial
    {
      files := initial;
    }

    /** `os.OpenFile` with O_APPEND|O_CREATE: creates an empty file when
        the path is free and never shortens an existing one. */
    method OpenAppend(path: string)
      modifies this
      ensures files == if path in old(files) then old(files) else old(files)[path := []]
    {
      if path !in files {
        files := files[path := []];
      }
    }

    /** `os.OpenFile` with O_CREATE|O_TRUNC: the file at `path` is empty
        afterwards, whatever it held before. */
    method Create(path: string)
      modifies this
      ensures files == old(files)[path := []]
    {
      files := files[path := []];
    }

    /** `os.Truncate(path, 0)`. */
    method Truncate(path: string)
      requires path in files
      modifies this
      ensures files == old(files)[path := []]
    {
      files := files[path := []];
    }

    /** Sequential writes to a file opened for appending. */
    method Append(path: string, data: Bytes)
      requires path in files
      modifies this
      ensures files == old(files)[path := old(files)[path] + data]
    {
      files := files[path := files[path] + data];
    }

    /** `os.Remove`, whose failure the program ignores. */
    method Remove(path: string)
      modifies this
      ensures files == old(files) - {path}
    {
      files := files - {path};
    }
  }
}
