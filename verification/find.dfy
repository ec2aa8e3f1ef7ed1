/** The pure parts of the `find` utility: `is_match`, which compares the last
    component of a path against the name searched for, the length guard that
    keeps a joined path inside find's 512-byte buffer, and the filter that
    decides which directory entries find descends into. Strings are C strings
    modelled as their characters before the terminator. */
module Find {
  import opened Outcomes
  import opened YuvalLib

  /** Characters in a directory entry name (kernel/fs.h, not part of this model). */
  const DIRSIZ: nat := 14
  /** The size of find's path buffer. */
  const BUFSIZE: nat := 512

  /** A C string: no terminator inside. */
  predicate CStr(s: seq<char>)
  {
    forall k :: 0 <= k < |s| ==> s[k] != NUL
  }

  // --------------------------------------------------------------- strcmp

  /** The user library's strcmp (user/ulib.c is not part of this model):
      advance while both strings agree and the first has not ended, then
      return the difference of the two characters reached. */
  function StrCmp(a: seq<char>, b: seq<char>): (r: int)
    requires CStr(a) && CStr(b)
    ensures r == 0 <==> a == b
    decreases |a|
  {
    if |a| > 0 && |b| > 0 && a[0] == b[0] then
      assert a == [a[0]] + a[1..] && b == [b[0]] + b[1..];
      StrCmp(a[1..], b[1..])
    else Code(At(a, 0)) - Code(At(b, 0))
  }

  /** Swapping the two strings negates the comparison. */
  lemma {:induction false} StrCmpAntisymmetric(a: seq<char>, b: seq<char>)
    requires CStr(a) && CStr(b)
    ensures StrCmp(b, a) == -StrCmp(a, b)
    decreases |a|
  {
    if |a| > 0 && |b| > 0 && a[0] == b[0] {
      StrCmpAntisymmetric(a[1..], b[1..]);
    }
  }

  // ------------------------------------------------------------ basenames

  /** The last component of a path: the text after its last '/', or the
      whole path when it holds none. */
  function Basename(path: seq<char>): (b: seq<char>)
    ensures '/' !in b
    ensures |b| <= |path| && b == path[|path| - |b|..]
    ensures |b| < |path| ==> path[|path| - |b| - 1] == '/'
  {
    if |path| == 0 || path[|path| - 1] == '/' then []
    else Basename(path[..|path| - 1]) + [path[|path| - 1]]
  }

  /** The basename is what follows the last '/'. */
  lemma {:induction false} BasenameAfterSlash(path: seq<char>, l: nat)
    requires l < |path| && path[l] == '/'
    requires forall k :: l < k < |path| ==> path[k] != '/'
    ensures Basename(path) == path[l + 1..]
    decreases |path|
  {
    var n := |path| - 1;
    if l < n {
      var p := path[..n];
      assert path[n] != '/';
      assert Basename(path) == Basename(p) + [path[n]];
      BasenameAfterSlash(p, l);
      assert path[l + 1..] == p[l + 1..] + [path[n]];
    } else {
      assert Basename(path) == [];
    }
  }

  /** A path without any '/' is its own basename. */
  lemma {:induction false} BasenameNoSlash(path: seq<char>)
    requires '/' !in path
    ensures Basename(path) == path
    decreases |path|
  {
    if |path| > 0 {
      var n := |path| - 1;
      assert path[n] in path;
      BasenameNoSlash(path[..n]);
      assert path == path[..n] + [path[n]];
    }
  }

  // ------------------------------------------------------------- is_match

  /** Where is_match's backward scan from position i stops: at the last '/'
      at a position of at least 1, or at 0. Position |path| holds the
      terminator. */
  function ScanBack(path: seq<char>, i: nat): (j: nat)
    requires i <= |path|
    ensures j <= i
    ensures j == 0 || At(path, j) == '/'
    ensures forall k :: j < k <= i ==> At(path, k) != '/'
    ensures i > 0 && At(path, i) != '/' ==> j < i
    decreases i
  {
    if i > 0 && At(path, i) != '/' then ScanBack(path, i - 1) else i
  }

  /** is_match as written: the comparison of the text one past the stop of
      the backward scan with the target. On the empty path the pointer steps
      past the terminator and the comparison reads outside the string; that
      case has no result. */
  function IsMatchAsWritten(path: seq<char>, target: seq<char>): (r: Option<int>)
    requires CStr(path) && CStr(target)
    ensures r.None? <==> path == []
  {
    if |path| == 0 then None
    else
      var j := ScanBack(path, |path|) + 1;
      Some(StrCmp(path[j..], target))
  }

  /** On a path holding a '/', the backward scan stops at the last one. */
  lemma ScanBackFindsLastSlash(path: seq<char>) returns (j: nat)
    requires '/' in path
    ensures j == ScanBack(path, |path|) && j < |path| && path[j] == '/'
    ensures forall k :: j < k < |path| ==> path[k] != '/'
  {
    var n := |path|;
    j := ScanBack(path, n);
    var l :| 0 <= l < n && path[l] == '/';
    assert At(path, l) == path[l];
    forall k | j < k < n
      ensures path[k] != '/'
    {
      assert At(path, k) == path[k];
    }
  }

  /** Where the path holds a '/', is_match as written compares the basename. */
  lemma IsMatchWithSlash(path: seq<char>, target: seq<char>)
    requires CStr(path) && CStr(target)
    requires '/' in path
    ensures IsMatchAsWritten(path, target) == Some(StrCmp(Basename(path), target))
  {
    var j := ScanBackFindsLastSlash(path);
    BasenameAfterSlash(path, j);
    var b := path[j + 1..];
    assert IsMatchAsWritten(path, target) == Some(StrCmp(b, target));
  }

  /** A path ending in '/' compares the empty string. */
  lemma IsMatchTrailingSlash(path: seq<char>, target: seq<char>)
    requires CStr(path) && CStr(target)
    requires |path| > 0 && path[|path| - 1] == '/'
    ensures IsMatchAsWritten(path, target) == Some(StrCmp([], target))
  {
    assert path[|path| - 1] in path;
    IsMatchWithSlash(path, target);
  }

  /** A non-empty path without '/' loses its first character before the
      comparison. */
  lemma IsMatchNoSlash(path: seq<char>, target: seq<char>)
    requires CStr(path) && CStr(target)
    requires |path| > 0 && '/' !in path
    ensures IsMatchAsWritten(path, target) == Some(StrCmp(path[1..], target))
  {
    assert ScanBack(path, |path|) == 0;
  }

  /** As written, searching for "abc" does not match the bare path "abc". */
  lemma BareNameMissed()
    ensures IsMatchAsWritten("abc", "abc") != Some(0)
    ensures IsMatch("abc", "abc") == 0
  {
    IsMatchNoSlash("abc", "abc");
    assert "abc"[1..] == "bc";
    BasenameNoSlash("abc");
  }

  /** is_match as evidently intended: the basename compared with the target. */
  function IsMatch(path: seq<char>, target: seq<char>): (r: int)
    requires CStr(path) && CStr(target)
  {
    StrCmp(Basename(path), target)
  }

  /** The corrected is_match reports 0 exactly when the basename is the target,
      and agrees with the as-written one on every path holding a '/'. */
  lemma IsMatchMeansBasename(path: seq<char>, target: seq<char>)
    requires CStr(path) && CStr(target)
    ensures IsMatch(path, target) == 0 <==> Basename(path) == target
    ensures '/' in path ==> IsMatchAsWritten(path, target) == Some(IsMatch(path, target))
  {
    if '/' in path {
      IsMatchWithSlash(path, target);
    }
  }

  // --------------------------------------------------- descending a directory

  /** find reads a directory only when the path, a '/', a whole entry name
      and the terminator fit in its buffer. */
  predicate Descends(path: seq<char>)
  {
    |path| + 1 + DIRSIZ + 1 <= BUFSIZE
  }

  /** A directory entry: an inode number (0 for a free slot) and a name of
      DIRSIZ characters, NUL-padded unless it fills the field. */
  datatype Dirent = Dirent(inum: nat, name: seq<char>)

  /** The C string at the front of s: its characters up to the first NUL. */
  function UpToNul(s: seq<char>): (r: seq<char>)
    ensures CStr(r) && |r| <= |s| && r == s[..|r|]
    ensures |r| < |s| ==> s[|r|] == NUL
  {
    if |s| == 0 || s[0] == NUL then []
    else
      assert s == [s[0]] + s[1..];
      [s[0]] + UpToNul(s[1..])
  }

  /** The path find builds for an entry: the directory path, a '/', and the
      entry's name with a terminator written after DIRSIZ characters. */
  function Joined(path: seq<char>, de: Dirent): (r: seq<char>)
    requires CStr(path)
    ensures CStr(r) && |path| + 1 <= |r| <= |path| + 1 + DIRSIZ
    ensures r[..|path| + 1] == path + ['/'] && r[|path| + 1..] == EntryName(de)
  {
    path + ['/'] + EntryName(de)
  }

  /** The entry's name as a C string: at most DIRSIZ characters, cut at the
      first NUL. */
  function EntryName(de: Dirent): (n: seq<char>)
    ensures CStr(n) && |n| <= DIRSIZ
  {
    UpToNul(if |de.name| <= DIRSIZ then de.name else de.name[..DIRSIZ])
  }

  /** find recurses into an entry when it is in use and the joined path does
      not end in '.'. */
  predicate Visits(path: seq<char>, de: Dirent)
    requires CStr(path)
  {
    var j := Joined(path, de);
    de.inum != 0 && j[|j| - 1] != '.'
  }

  /** The paths find recurses into: one per visited entry of the directory. */
  function Children(path: seq<char>, des: seq<Dirent>): (r: seq<seq<char>>)
    requires CStr(path)
    ensures !Descends(path) ==> r == []
    ensures forall c :: c in r ==> CStr(c) && |path| + 1 <= |c| < BUFSIZE && c[..|path| + 1] == path + ['/']
    ensures Descends(path) ==>
      forall c :: c in r <==> exists i :: 0 <= i < |des| && Visits(path, des[i]) && c == Joined(path, des[i])
  {
    if !Descends(path) || |des| == 0 then []
    else
      var rest := Children(path, des[..|des| - 1]);
      var de := des[|des| - 1];
      assert forall i :: 0 <= i < |des| - 1 ==> des[..|des| - 1][i] == des[i];
      if Visits(path, de) then rest + [Joined(path, de)] else rest
  }

  /** An entry whose name ends in '.' is never visited: not "." and "..",
      and not an ordinary name such as "notes." either. An entry whose name
      is empty is visited, as the directory path followed by '/'. */
  lemma DottedNamesSkipped(path: seq<char>, de: Dirent)
    requires CStr(path)
    ensures |EntryName(de)| > 0 && EntryName(de)[|EntryName(de)| - 1] == '.' ==> !Visits(path, de)
    ensures de.inum != 0 && EntryName(de) == [] ==> Visits(path, de) && Joined(path, de) == path + ['/']
  {
  }

  lemma DotEntries(path: seq<char>, inum: nat)
    requires CStr(path)
    ensures !Visits(path, Dirent(inum, "."))
    ensures !Visits(path, Dirent(inum, ".."))
  {
    assert UpToNul(".") == ".";
    assert UpToNul("..") == "..";
  }

  /** A free slot is never visited. */
  lemma FreeSlotsSkipped(path: seq<char>, name: seq<char>)
    requires CStr(path)
    ensures !Visits(path, Dirent(0, name))
  {
  }
}
