/**
  Change detection (get_changes): the live tree against a baseline snapshot.

  Directory and file additions and removals are list differences. A file on
  both sides is unchanged when its fingerprint equals the recorded one; when
  the fingerprints differ it is modified unless the sizes agree and a full
  byte comparison with the recorded blob finds the same content.
 */
module ChangeDetector {
  import opened Paths
  import opened Records

  datatype Changes = Changes(
    changed: bool,
    dirsAdded: seq<Path>,
    dirsRemoved: seq<Path>,
    filesAdded: seq<Path>,
    filesRemoved: seq<Path>,
    filesModified: seq<Path>)
  {
    predicate AnyListed() {
      dirsAdded != [] || dirsRemoved != [] || filesAdded != [] || filesRemoved != [] || filesModified != []
    }
  }

  const NoChanges := Changes(false, [], [], [], [], [])

  /**
    The classification of one file present live and in the baseline: an
    unchanged fingerprint means unmodified without reading the file, a
    changed size means modified, and otherwise the bytes decide.
   */
  predicate IsModified(f: Path, s: Snapshot, view: TreeView, blobs: map<string, Bytes>): (modified: bool)
    requires f in view.content && f in view.stat
    requires f in s.fileInfo && s.fileInfo[f].id in blobs
    ensures view.stat[f] == s.fileInfo[f].stat ==> !modified
    ensures view.stat[f].size != s.fileInfo[f].stat.size ==> modified
    ensures view.stat[f] != s.fileInfo[f].stat && view.stat[f].size == s.fileInfo[f].stat.size ==>
      (modified <==> view.content[f] != blobs[s.fileInfo[f].id])
  {
    var now, last := view.stat[f], s.fileInfo[f];
    now != last.stat && !(now.size == last.stat.size && view.content[f] == blobs[last.id])
  }

  /** The files_modified accumulation over a prefix of the live file list. */
  function Modified(files: seq<Path>, added: seq<Path>, s: Snapshot, view: TreeView, blobs: map<string, Bytes>): (r: seq<Path>)
    requires forall f :: f in files ==> f in view.content && f in view.stat
    requires forall f :: f in files && f !in added ==> f in s.fileList
    requires s.Resolvable(blobs)
    ensures forall f :: f in r <==> f in files && f !in added && IsModified(f, s, view, blobs)
  {
    if files == [] then []
    else
      var f := files[|files| - 1];
      var prefix := Modified(files[..|files| - 1], added, s, view, blobs);
      assert forall g :: g in files <==> g in files[..|files| - 1] || g == f;
      if f !in added && IsModified(f, s, view, blobs) then prefix + [f] else prefix
  }

  /**
    get_changes(snapshot). Without a baseline every live entry is an
    addition. With one, the five lists are the exact differences and the
    modified files as classified above; `changed` is true exactly when some
    list is non-empty, and when it is false every list is empty.
   */
  function GetChanges(baseline: Option<Snapshot>, view: TreeView, blobs: map<string, Bytes>): (c: Changes)
    requires view.Valid()
    requires baseline.Some? ==> baseline.value.Resolvable(blobs)
    ensures c.changed <==> c.AnyListed()
    ensures baseline.None? ==>
      && c.dirsAdded == view.Tracked().dirs && c.filesAdded == view.Tracked().files
      && c.dirsRemoved == [] && c.filesRemoved == [] && c.filesModified == []
      && (c.changed <==> view.Tracked().dirs != [] || view.Tracked().files != [])
  {
    var live := view.Tracked();
    if baseline.None? then
      if live.dirs != [] || live.files != [] then Changes(true, live.dirs, [], live.files, [], [])
      else NoChanges
    else
      var s := baseline.value;
      var dirsAdded := Minus(live.dirs, s.dirList);
      var dirsRemoved := Minus(s.dirList, live.dirs);
      var filesAdded := Minus(live.files, s.fileList);
      var filesRemoved := Minus(s.fileList, live.files);
      var filesModified := Modified(live.files, filesAdded, s, view, blobs);
      var c := Changes(true, dirsAdded, dirsRemoved, filesAdded, filesRemoved, filesModified);
      if c.AnyListed() then c else NoChanges
  }

  /**
    get_changes against a baseline snapshot: the four list differences are
    exact, a file is modified only if it is live, recorded and classified so
    (never when its fingerprint is unchanged, always when its size differs),
    and a baseline without repeated directories yields none among the removals.
   */
  lemma ChangesAgainstBaseline(s: Snapshot, view: TreeView, blobs: map<string, Bytes>)
    requires view.Valid() && s.Resolvable(blobs)
    ensures var c, live := GetChanges(Some(s), view, blobs), view.Tracked();
      && (forall d :: d in c.dirsAdded <==> d in live.dirs && d !in s.dirList)
      && (forall d :: d in c.dirsRemoved <==> d in s.dirList && d !in live.dirs)
      && (forall f :: f in c.filesAdded <==> f in live.files && f !in s.fileList)
      && (forall f :: f in c.filesRemoved <==> f in s.fileList && f !in live.files)
      && (forall f :: f in c.filesModified <==>
            f in live.files && f in s.fileList && IsModified(f, s, view, blobs))
      && (NoDup(s.dirList) ==> NoDup(c.dirsRemoved))
      && (forall f :: f in live.files && f in s.fileList ==>
            && (view.stat[f] == s.fileInfo[f].stat ==> f !in c.filesModified)
            && (view.stat[f].size != s.fileInfo[f].stat.size ==> f in c.filesModified))
  {
  }

  lemma NothingListed<T>(s: seq<T>)
    ensures (forall x :: x !in s) ==> s == []
  {
    if s != [] {
      assert s[0] in s;
    }
  }

  /**
    A snapshot recording exactly the live lists and the live fingerprints
    shows no change: this is why a second snapshot with nothing touched in
    between is refused.
   */
  lemma UpToDateRecordHasNoChanges(s: Snapshot, view: TreeView, blobs: map<string, Bytes>)
    requires view.Valid() && s.Resolvable(blobs)
    requires s.dirList == view.Tracked().dirs && s.fileList == view.Tracked().files
    requires forall f :: f in s.fileList ==> s.fileInfo[f].stat == view.stat[f]
    ensures !GetChanges(Some(s), view, blobs).changed
  {
    var c := GetChanges(Some(s), view, blobs);
    ChangesAgainstBaseline(s, view, blobs);
    NothingListed(c.dirsAdded);
    NothingListed(c.dirsRemoved);
    NothingListed(c.filesAdded);
    NothingListed(c.filesRemoved);
    NothingListed(c.filesModified);
  }

  /**
    Against a baseline, every recorded directory is still walked or listed
    as removed, and every recorded file is either listed for restoration
    (removed or modified) or still walked, not added, and unchanged by the
    classification: same fingerprint or same bytes as its blob.
   */
  lemma ChangesAccountForBaseline(s: Snapshot, view: TreeView, blobs: map<string, Bytes>)
    requires view.Valid() && s.Resolvable(blobs)
    ensures var c := GetChanges(Some(s), view, blobs);
      && (forall d :: d in s.dirList ==> d in view.walkDirs || d in c.dirsRemoved)
      && (forall f :: f in s.fileList && f !in c.filesRemoved && f !in c.filesModified ==>
            && f in view.walkFiles && f !in c.filesAdded && f in view.stat && f in view.content
            && (view.stat[f] == s.fileInfo[f].stat
                || (s.fileInfo[f].id in blobs && view.content[f] == blobs[s.fileInfo[f].id])))
  {
    var c, live := GetChanges(Some(s), view, blobs), view.Tracked();
    ChangesAgainstBaseline(s, view, blobs);
    forall f | f in s.fileList && f !in c.filesRemoved && f !in c.filesModified
      ensures && f in view.walkFiles && f !in c.filesAdded && f in view.stat && f in view.content
              && (view.stat[f] == s.fileInfo[f].stat
                  || (s.fileInfo[f].id in blobs && view.content[f] == blobs[s.fileInfo[f].id]))
    {
      assert f in live.files;
      assert !IsModified(f, s, view, blobs);
    }
  }

  /**
    A baseline with nothing in the metadata directory yields change lists
    with nothing in it either: the live side is the tracked walk, which
    excludes it.
   */
  lemma ChangesOutsideMetadata(s: Snapshot, view: TreeView, blobs: map<string, Bytes>)
    requires view.Valid() && s.Resolvable(blobs) && s.OutsideMetadata()
    ensures var c := GetChanges(Some(s), view, blobs);
      && (forall a :: a in c.dirsAdded || a in c.dirsRemoved ==> !Within(a, BakDir))
      && (forall f :: f in c.filesAdded || f in c.filesRemoved || f in c.filesModified ==> !Under(f, BakDir))
  {
    ChangesAgainstBaseline(s, view, blobs);
  }

  /**
    The same computation as the source performs it: the list differences,
    then the pass over the live files below.
   */
  method DetectChanges(baseline: Option<Snapshot>, view: TreeView, blobs: map<string, Bytes>) returns (c: Changes)
    requires view.Valid()
    requires baseline.Some? ==> baseline.value.Resolvable(blobs)
    ensures c == GetChanges(baseline, view, blobs)
  {
    var live := view.Tracked();
    if baseline.None? {
      if live.dirs != [] || live.files != [] {
        return Changes(true, live.dirs, [], live.files, [], []);
      }
      return NoChanges;
    }
    var s := baseline.value;
    var dirsAdded := Minus(live.dirs, s.dirList);
    var dirsRemoved := Minus(s.dirList, live.dirs);
    var filesAdded := Minus(live.files, s.fileList);
    var filesRemoved := Minus(s.fileList, live.files);
    var filesModified := ModifiedFiles(live.files, filesAdded, s, view, blobs);
    c := Changes(true, dirsAdded, dirsRemoved, filesAdded, filesRemoved, filesModified);
    if !c.AnyListed() {
      c := NoChanges;
    }
  }

  /**
    The files_modified loop: skip additions, take the fingerprint fast path,
    and fall back to a byte comparison only when the sizes agree.
   */
  method ModifiedFiles(files: seq<Path>, added: seq<Path>, s: Snapshot, view: TreeView, blobs: map<string, Bytes>)
    returns (modified: seq<Path>)
    requires forall f :: f in files ==> f in view.content && f in view.stat
    requires forall f :: f in files && f !in added ==> f in s.fileList
    requires s.Resolvable(blobs)
    ensures modified == Modified(files, added, s, view, blobs)
  {
    modified := [];
    var i := 0;
    while i < |files|
      invariant i <= |files|
      invariant modified == Modified(files[..i], added, s, view, blobs)
    {
      var f := files[i];
      assert files[..i + 1][..i] == files[..i];
      if f !in added {
        var now, last := view.stat[f], s.fileInfo[f];
        if now != last.stat {
          if !(now.size == last.stat.size && view.content[f] == blobs[last.id]) {
            modified := modified + [f];
          }
        }
      }
      i := i + 1;
    }
    assert files[..i] == files;
  }
}
