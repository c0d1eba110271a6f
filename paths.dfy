/**
  Paths of the working tree and the enumeration of tracked entries.

  A path is relative to the repository root, its components joined by the
  Windows separator (the tool runs on Windows). The directory walk itself is
  an input: its order is whatever the operating system yields, and only the
  exclusion of the metadata directory `.bak` is modelled.
 */
module Paths {

  type Path = string

  /** The metadata directory at the repository root. */
  const BakDir: Path := ".bak"
  const Sep: char := '\\'

  /** p lies strictly beneath directory d. */
  predicate Under(p: Path, d: Path) {
    |p| > |d| && p[..|d|] == d && p[|d|] == Sep
  }

  /** p is d itself or lies beneath it. */
  predicate Within(p: Path, d: Path) {
    p == d || Under(p, d)
  }

  /** p is none of the directories ds and lies beneath none of them. */
  predicate WithinNone(p: Path, ds: seq<Path>) {
    forall d :: d in ds ==> !Within(p, d)
  }

  /** p lies beneath none of the directories ds. */
  predicate UnderNone(p: Path, ds: seq<Path>) {
    forall d :: d in ds ==> !Under(p, d)
  }

  /**
    An entry of the metadata directory lies within no directory outside it:
    the only directories that are prefixes of such an entry are the metadata
    directory and directories beneath it.
   */
  lemma {:induction false} MetadataNested(p: Path, a: Path)
    requires Within(p, BakDir) && Within(p, a)
    ensures Within(a, BakDir)
  {
    if p != a {
      if |a| == |BakDir| {
        assert a == p[..|a|] == BakDir;
      } else if |a| > |BakDir| {
        assert a[..|BakDir|] == p[..|BakDir|];
        assert a[|BakDir|] == p[|BakDir|];
      }
    }
  }

  /** No entry is listed twice (a directory walk yields each entry once). */
  predicate NoDup<T(==)>(s: seq<T>) {
    forall i, j :: 0 <= i < j < |s| ==> s[i] != s[j]
  }

  /** The elements of s satisfying keep, in s's order (a list comprehension with a condition). */
  function Filter<T(==,!new)>(s: seq<T>, keep: T -> bool): (r: seq<T>)
    ensures forall x :: x in r <==> x in s && keep(x)
    ensures NoDup(s) ==> NoDup(r)
    ensures |r| <= |s|
  {
    if s == [] then []
    else if keep(s[0]) then [s[0]] + Filter(s[1..], keep)
    else Filter(s[1..], keep)
  }

  /** The elements of a that do not occur in b, in a's order (`[x for x in a if x not in b]`). */
  function Minus<T(==,!new)>(a: seq<T>, b: seq<T>): (r: seq<T>)
    ensures forall x :: x in r <==> x in a && x !in b
    ensures NoDup(a) ==> NoDup(r)
  {
    Filter(a, x => x !in b)
  }

  /** The directory and file lists of the working tree. */
  datatype Listing = Listing(dirs: seq<Path>, files: seq<Path>)

  /**
    get_files: the walk's directories and files; with ignore set, the
    metadata directory and every directory beneath it, and every file beneath
    it, are dropped (a plain file that happened to be named `.bak` would stay).
   */
  function GetFiles(walkDirs: seq<Path>, walkFiles: seq<Path>, ignore: bool): (r: Listing)
    ensures !ignore ==> r == Listing(walkDirs, walkFiles)
    ensures ignore ==> forall d :: d in r.dirs <==> d in walkDirs && !Within(d, BakDir)
    ensures ignore ==> forall f :: f in r.files <==> f in walkFiles && !Under(f, BakDir)
    ensures NoDup(walkDirs) && NoDup(walkFiles) ==> NoDup(r.dirs) && NoDup(r.files)
  {
    if !ignore then Listing(walkDirs, walkFiles)
    else Listing(Filter(walkDirs, d => !Within(d, BakDir)), Filter(walkFiles, f => !Under(f, BakDir)))
  }
}
