/**
  The working tree as checkout changes it: the walked directories and files,
  each file's bytes and fingerprint. The four operations are the filesystem
  calls checkout makes: shutil.rmtree, os.makedirs, os.remove and
  shutil.copy. A copied file gets a new fingerprint that the model chooses
  freely except for its size.
 */
module WorkingTree {
  import opened Paths
  import opened Records
  import opened ChangeDetector

  /**
    What checkout's loops do to the tree, as a relation between the tree
    before and after: the added directories' subtrees and the added files
    are gone, the removed directories exist, the removed and modified files
    hold their blobs' bytes, and every other entry is as it was.
   */
  ghost predicate Applied(c: Changes, s: Snapshot, blobs: map<string, Bytes>, before: TreeView, after: TreeView) {
    && (forall d :: d in after.walkDirs ==> d in before.walkDirs || d in c.dirsRemoved)
    && (forall d :: d in c.dirsAdded && d !in c.dirsRemoved ==> d !in after.walkDirs)
    && (forall d :: d in c.dirsRemoved ==> d in after.walkDirs)
    && (forall d :: d in before.walkDirs && WithinNone(d, c.dirsAdded) ==> d in after.walkDirs)
    && (forall f :: f in after.walkFiles ==> f in before.walkFiles || f in c.filesRemoved || f in c.filesModified)
    && (forall f :: f in c.filesAdded && f !in c.filesRemoved && f !in c.filesModified ==> f !in after.walkFiles)
    && RestoredBytes(c, s, blobs, after)
    && Untouched(c, before, after)
  }

  /** Every removed or modified file is present again and holds the bytes of its blob in s. */
  ghost predicate RestoredBytes(c: Changes, s: Snapshot, blobs: map<string, Bytes>, after: TreeView) {
    forall f :: f in c.filesRemoved || f in c.filesModified ==>
      && f in after.walkFiles && f in after.content && f in s.fileInfo && s.fileInfo[f].id in blobs
      && after.content[f] == blobs[s.fileInfo[f].id]
  }

  /**
    Every walked file that no change list names and that lies outside the
    added directories is still there with its bytes and fingerprint.
   */
  ghost predicate Untouched(c: Changes, before: TreeView, after: TreeView) {
    forall f ::
      (&& f in before.walkFiles && f !in c.filesAdded && f !in c.filesRemoved && f !in c.filesModified
       && UnderNone(f, c.dirsAdded)) ==>
        && f in after.walkFiles && f in before.content && f in after.content && f in before.stat && f in after.stat
        && after.content[f] == before.content[f] && after.stat[f] == before.stat[f]
  }

  /**
    The first n files of fs hold their blobs' bytes, the directories are as
    they were, no file vanished, no file outside fs appeared, and every file
    outside fs keeps its bytes and fingerprint.
   */
  ghost predicate CopiedPrefix(fs: seq<Path>, n: nat, s: Snapshot, blobs: map<string, Bytes>, before: TreeView, after: TreeView) {
    && n <= |fs|
    && after.walkDirs == before.walkDirs
    && (forall f :: f in before.walkFiles ==> f in after.walkFiles)
    && (forall f :: f in after.walkFiles ==> f in before.walkFiles || f in fs)
    && (forall k :: 0 <= k < n ==>
          && fs[k] in after.walkFiles && fs[k] in after.content && fs[k] in s.fileInfo
          && s.fileInfo[fs[k]].id in blobs && after.content[fs[k]] == blobs[s.fileInfo[fs[k]].id])
    && (forall f :: f in before.walkFiles && f !in fs ==>
          && f in before.content && f in after.content && f in before.stat && f in after.stat
          && after.content[f] == before.content[f] && after.stat[f] == before.stat[f])
  }

  /** One shutil.copy of fs[i] extends the copied prefix by one. */
  lemma CopyStep(fs: seq<Path>, i: nat, s: Snapshot, blobs: map<string, Bytes>, before: TreeView, mid: TreeView, after: TreeView)
    requires CopiedPrefix(fs, i, s, blobs, before, mid) && i < |fs|
    requires fs[i] in s.fileInfo && s.fileInfo[fs[i]].id in blobs
    requires after.walkDirs == mid.walkDirs
    requires after.walkFiles == if fs[i] in mid.walkFiles then mid.walkFiles else mid.walkFiles + [fs[i]]
    requires after.content == mid.content[fs[i] := blobs[s.fileInfo[fs[i]].id]]
    requires fs[i] in after.stat && after.stat == mid.stat[fs[i] := after.stat[fs[i]]]
    ensures CopiedPrefix(fs, i + 1, s, blobs, before, after)
  {
  }

  class WorkTree {
    var dirs: seq<Path>
    var files: seq<Path>
    var content: map<Path, Bytes>
    var stat: map<Path, Fingerprint>

    function View(): TreeView
      reads this
    {
      TreeView(dirs, files, content, stat)
    }

    ghost predicate Valid()
      reads this
    {
      View().Valid()
    }

    constructor (view: TreeView)
      requires view.Valid()
      ensures Valid() && View() == view
    {
      dirs, files, content, stat := view.walkDirs, view.walkFiles, view.content, view.stat;
    }

    /** shutil.rmtree(d): d and every directory and file beneath it disappear. */
    method RemoveTree(d: Path)
      requires Valid()
      modifies this
      ensures Valid()
      ensures dirs == Filter(old(dirs), p => !Within(p, d))
      ensures files == Filter(old(files), f => !Under(f, d))
      ensures forall f :: f in files ==> content[f] == old(content)[f] && stat[f] == old(stat)[f]
    {
      dirs := Filter(dirs, p => !Within(p, d));
      files := Filter(files, f => !Under(f, d));
    }

    /** os.makedirs(d), for a directory that does not exist yet (the source raises otherwise). */
    method MakeDirs(d: Path)
      requires Valid()
      requires d !in dirs
      modifies this`dirs
      ensures Valid()
      ensures dirs == old(dirs) + [d]
    {
      dirs := dirs + [d];
    }

    /** os.remove(f). */
    method RemoveFile(f: Path)
      requires Valid()
      modifies this`files
      ensures Valid()
      ensures files == Filter(old(files), g => g != f)
    {
      files := Filter(files, g => g != f);
    }

    /** shutil.copy(blob, f): creates or overwrites f with the blob's bytes. */
    method CopyIn(f: Path, data: Bytes)
      requires Valid()
      modifies this
      ensures Valid()
      ensures dirs == old(dirs)
      ensures files == if f in old(files) then old(files) else old(files) + [f]
      ensures content == old(content)[f := data]
      ensures f in stat && stat == old(stat)[f := stat[f]] && stat[f].size == |data|
    {
      // The new mode, inode, times and so on are the operating system's choice.
      assert Fingerprint(0, 0, 0, 1, |data|, 0.0, 0.0).size == |data|;
      var fp: Fingerprint :| fp.size == |data|;
      if f !in files {
        files := files + [f];
      }
      content := content[f := data];
      stat := stat[f := fp];
    }

    /** The first loop's step: shutil.rmtree(d) when d still exists. */
    method RemoveIfPresent(d: Path)
      requires Valid()
      modifies this
      ensures Valid()
      ensures d !in dirs
      ensures forall p :: p in dirs ==> p in old(dirs)
      ensures forall p :: p in old(dirs) && !Within(p, d) ==> p in dirs
      ensures forall f :: f in files ==> f in old(files)
      ensures forall f :: f in old(files) && !Under(f, d) ==> f in files
      ensures forall f :: f in files ==> content[f] == old(content)[f] && stat[f] == old(stat)[f]
    {
      if d in dirs {
        RemoveTree(d);
      }
    }

    /**
      Checkout's first loop: every listed directory that still exists is
      removed with its subtree. Entries outside all listed subtrees survive
      with their bytes and fingerprints.
     */
    method RemoveTrees(ds: seq<Path>)
      requires Valid()
      modifies this
      ensures Valid()
      ensures forall d :: d in ds ==> d !in dirs
      ensures forall p :: p in dirs ==> p in old(dirs)
      ensures forall p :: p in old(dirs) && WithinNone(p, ds) ==> p in dirs
      ensures forall f :: f in files ==> f in old(files)
      ensures forall f :: f in old(files) && UnderNone(f, ds) ==> f in files
      ensures forall f :: f in files ==> content[f] == old(content)[f] && stat[f] == old(stat)[f]
    {
      var i := 0;
      while i < |ds|
        invariant i <= |ds| && Valid()
        invariant forall d :: d in ds[..i] ==> d !in dirs
        invariant forall p :: p in dirs ==> p in old(dirs)
        invariant forall p :: p in old(dirs) && WithinNone(p, ds[..i]) ==> p in dirs
        invariant forall f :: f in files ==> f in old(files)
        invariant forall f :: f in old(files) && UnderNone(f, ds[..i]) ==> f in files
        invariant forall f :: f in files ==> content[f] == old(content)[f] && stat[f] == old(stat)[f]
      {
        RemoveIfPresent(ds[i]);
        assert ds[..i + 1] == ds[..i] + [ds[i]];
        i := i + 1;
      }
      assert ds[..i] == ds;
    }

    /** Checkout's second loop: os.makedirs for each listed directory, none of which exists yet. */
    method MakeEachDir(ds: seq<Path>)
      requires Valid()
      requires NoDup(ds)
      requires forall d :: d in ds ==> d !in dirs
      modifies this`dirs
      ensures Valid()
      ensures dirs == old(dirs) + ds
    {
      var i := 0;
      while i < |ds|
        invariant i <= |ds| && Valid()
        invariant dirs == old(dirs) + ds[..i]
      {
        assert ds[i] !in ds[..i];
        MakeDirs(ds[i]);
        assert ds[..i + 1] == ds[..i] + [ds[i]];
        i := i + 1;
      }
      assert ds[..i] == ds;
    }

    /** Checkout's third loop: each listed file that still exists is removed. */
    method RemoveEach(fs: seq<Path>)
      requires Valid()
      modifies this`files
      ensures Valid()
      ensures forall f :: f in files <==> f in old(files) && f !in fs
    {
      var i := 0;
      while i < |fs|
        invariant i <= |fs| && Valid()
        invariant forall f :: f in files <==> f in old(files) && f !in fs[..i]
      {
        if fs[i] in files {
          RemoveFile(fs[i]);
        }
        assert fs[..i + 1] == fs[..i] + [fs[i]];
        i := i + 1;
      }
      assert fs[..i] == fs;
    }

    /**
      Checkout's last two loops: each listed file is copied out of the store
      from the blob its record in the snapshot names.
     */
    method CopyEach(fs: seq<Path>, s: Snapshot, blobs: map<string, Bytes>)
      requires Valid()
      requires forall f :: f in fs ==> f in s.fileInfo && s.fileInfo[f].id in blobs
      modifies this
      ensures Valid() && CopiedPrefix(fs, |fs|, s, blobs, old(View()), View())
    {
      var i := 0;
      while i < |fs|
        invariant i <= |fs| && Valid()
        invariant CopiedPrefix(fs, i, s, blobs, old(View()), View())
      {
        ghost var mid := View();
        CopyIn(fs[i], blobs[s.fileInfo[fs[i]].id]);
        CopyStep(fs, i, s, blobs, old(View()), mid, View());
        i := i + 1;
      }
    }

    /**
      Checkout's five loops in order: remove the added directories' subtrees,
      create the removed directories, delete the added files, then copy the
      removed and the modified files back from their blobs. Nothing outside
      those lists and subtrees is touched.
     */
    method ApplyChanges(c: Changes, s: Snapshot, blobs: map<string, Bytes>)
      requires Valid()
      requires NoDup(c.dirsRemoved)
      requires forall d :: d in c.dirsRemoved ==> d !in dirs
      requires forall f :: f in c.filesRemoved || f in c.filesModified ==> f in s.fileInfo && s.fileInfo[f].id in blobs
      modifies this
      ensures Valid() && Applied(c, s, blobs, old(View()), View())
    {
      RemoveTrees(c.dirsAdded);
      MakeEachDir(c.dirsRemoved);
      RemoveEach(c.filesAdded);
      CopyEach(c.filesRemoved, s, blobs);
      CopyEach(c.filesModified, s, blobs);
    }
  }
}
