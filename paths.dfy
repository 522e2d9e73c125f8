/** Path strings as lib_tar.c compares and rewrites them: `strncmp` prefix tests,
    the last-separator scan, and the symlink target rule of `pathoflink`. */
module Paths {

  function Min(a: int, b: int): int {
    if a <= b then a else b
  }

  /** `strncmp(a, b, n) == 0` on NUL-free C strings: the first `n` characters agree,
      where a string shorter than `n` is followed by its terminator. */
  predicate StrnEq(a: string, b: string, n: nat) {
    a[..Min(n, |a|)] == b[..Min(n, |b|)]
  }

  predicate IsPrefix(a: string, b: string) {
    |a| <= |b| && b[..|a|] == a
  }

  /** Bounded by the stored name's length, the test asks whether the name is a prefix
      of the query path. */
  lemma NameBoundIsPrefix(name: string, path: string)
    ensures StrnEq(name, path, |name|) <==> IsPrefix(name, path)
  {
  }

  /** Bounded by the query path's length, the test asks whether the query path is a
      prefix of the name. */
  lemma PathBoundIsPrefix(name: string, path: string)
    ensures StrnEq(name, path, |path|) <==> IsPrefix(path, name)
  {
  }

  /** The `lastBack` the scanning loops compute: the index of the last '/', or 0 when
      there is none. */
  function LastSlash(s: string): (k: nat)
    ensures k == 0 || k < |s|
  {
    if s == [] then 0
    else if s[|s| - 1] == '/' then |s| - 1
    else LastSlash(s[..|s| - 1])
  }

  /** The scan's result is the last '/' of the string, or 0 when it has none. */
  lemma {:induction false} LastSlashIsLast(s: string)
    ensures '/' in s ==> LastSlash(s) < |s| && s[LastSlash(s)] == '/'
    ensures '/' !in s ==> LastSlash(s) == 0
    ensures forall i :: LastSlash(s) < i < |s| ==> s[i] != '/'
  {
    if s != [] && s[|s| - 1] != '/' {
      var t := s[..|s| - 1];
      LastSlashIsLast(t);
      assert forall i :: 0 <= i < |t| ==> t[i] == s[i];
      assert '/' in s ==> '/' in t;
    }
  }

  /** The scan in pathoflink and list: `for i < strlen(s): if s[i] == '/' then lastBack := i`. */
  method LastBack(s: string) returns (lastBack: nat)
    ensures lastBack == LastSlash(s)
  {
    lastBack := 0;
    var i := 0;
    while i < |s|
      invariant 0 <= i <= |s|
      invariant lastBack == LastSlash(s[..i])
    {
      assert s[..i + 1][..i] == s[..i];
      if s[i] == '/' {
        lastBack := i;
      }
      i := i + 1;
    }
    assert s[..|s|] == s;
  }

  /** How many leading characters of the symlink's own path its target keeps: one past
      the last '/', or none when the last '/' is at index 0 or there is none. */
  function LinkDirLen(sympath: string): nat {
    var k := LastSlash(sympath);
    if k != 0 then k + 1 else 0
  }

  /** The path pathoflink resolves a symlink's target to. */
  function LinkPath(sympath: string, file: string): string {
    sympath[..LinkDirLen(sympath)] + file
  }

  /** A relative target is resolved against the symlink's containing directory, the
      prefix of its path up to and including the last '/'; with no '/', or with the only
      '/' at index 0, the target is used as it stands. */
  lemma LinkPathResolves(sympath: string, file: string)
    ensures var k := LinkDirLen(sympath);
      LinkPath(sympath, file) == sympath[..k] + file &&
      (k > 0 ==> sympath[k - 1] == '/' && forall i :: k <= i < |sympath| ==> sympath[i] != '/') &&
      (k == 0 ==> forall i :: 0 < i < |sympath| ==> sympath[i] != '/')
  {
    LastSlashIsLast(sympath);
  }

  /** Resolving a C string against a C string gives a C string: no NUL inside. */
  lemma LinkPathNulFree(sympath: string, file: string)
    requires '\0' !in sympath && '\0' !in file
    ensures '\0' !in LinkPath(sympath, file)
  {
    var k := LinkDirLen(sympath);
    assert forall i :: 0 <= i < k ==> sympath[..k][i] == sympath[i];
  }

  /** pathoflink: copies the symlink's directory prefix and then the target into a
      fresh buffer of `lastBack + strlen(file) + 1` characters and terminates it. */
  method PathOfLink(sympath: string, file: string) returns (path: string)
    ensures path == LinkPath(sympath, file)
    ensures |path| == LinkDirLen(sympath) + |file|
  {
    var lastBack := LastBack(sympath);
    if lastBack != 0 {
      lastBack := lastBack + 1;
    }
    var buf := new char[lastBack + |file| + 1];
    forall i | 0 <= i < lastBack {
      buf[i] := sympath[i];
    }
    forall i | 0 <= i < |file| {
      buf[lastBack + i] := file[i];
    }
    buf[lastBack + |file|] := '\0';
    path := buf[..lastBack + |file|];
    assert path == sympath[..lastBack] + file;
  }

  /** The buffer pathoflink allocates for the resolved path. */
  function AllocatedLen(sympath: string, file: string): nat {
    LinkDirLen(sympath) + |file| + 1
  }

  /** The index at which pathoflink, as written, stores the terminator. */
  function TerminatorIndexAsWritten(sympath: string, file: string): nat {
    LinkDirLen(sympath) + |file| + 1
  }

  /** As written, the terminator lands one past the end of the allocation, and the last
      allocated character, where the terminator belongs, is never written. */
  lemma TerminatorOutOfBounds(sympath: string, file: string)
    ensures TerminatorIndexAsWritten(sympath, file) == AllocatedLen(sympath, file)
    ensures |LinkPath(sympath, file)| == AllocatedLen(sympath, file) - 1
  {
  }

  /** The example "dir/link" -> "t": a 6-character buffer, the terminator written at 6. */
  lemma TerminatorOutOfBoundsExample()
    ensures LinkPath("dir/link", "t") == "dir/t"
    ensures AllocatedLen("dir/link", "t") == 6 && TerminatorIndexAsWritten("dir/link", "t") == 6
  {
    var s := "dir/link";
    assert "dir/"[..3] == "dir" && LastSlash("dir/") == 3;
    assert "dir/l"[..4] == "dir/" && LastSlash("dir/l") == 3;
    assert "dir/li"[..5] == "dir/l" && LastSlash("dir/li") == 3;
    assert "dir/lin"[..6] == "dir/li" && LastSlash("dir/lin") == 3;
    assert s[..7] == "dir/lin" && LastSlash(s) == 3;
  }
}
