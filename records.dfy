/**
  The values the backup engine stores and compares: file contents,
  fingerprints (os.stat tuples), per-file records and snapshots, and the
  view of the working tree that change detection reads.
 */
module Records {
  import opened Paths

  datatype Option<T> = None | Some(value: T)

  type Bytes = seq<bv8>

  /** A SHA-512 hex digest; the hash function itself is a parameter of the store. */
  type Digest = string

  /**
    The os.stat tuple recorded per file: mode, inode, device, link count,
    size, modification time and change time. The times are floats in the
    source; the model only compares them for equality.
   */
  datatype Fingerprint = Fingerprint(
    mode: int, ino: int, dev: int, nlink: int, size: nat, mtime: real, ctime: real)

  /** file_info entry: the content id of the file's blob and its fingerprint. */
  datatype FileRecord = FileRecord(id: string, stat: Fingerprint)

  /** A snapshot as appended to the index; never changed afterwards. */
  datatype Snapshot = Snapshot(
    id: string,
    tag: string,
    time: string,
    dirList: seq<Path>,
    fileList: seq<Path>,
    fileInfo: map<Path, FileRecord>)
  {
    /** Nothing the snapshot lists lies in the metadata directory. */
    predicate OutsideMetadata() {
      && (forall d :: d in dirList ==> !Within(d, BakDir))
      && (forall f :: f in fileList ==> !Under(f, BakDir))
    }

    /** Every recorded file's blob is present in the store (so it can be compared or restored). */
    predicate Resolvable(blobs: map<string, Bytes>) {
      forall f :: f in fileList ==> f in fileInfo && fileInfo[f].id in blobs
    }
  }

  /**
    The working tree as the engine sees it: the raw walk of the repository
    root (which includes the metadata directory), and the bytes and the
    fingerprint of every walked file.
   */
  datatype TreeView = TreeView(
    walkDirs: seq<Path>,
    walkFiles: seq<Path>,
    content: map<Path, Bytes>,
    stat: map<Path, Fingerprint>)
  {
    /**
      The walk lists each entry once, and every walked file can be read and
      stat'ed, its fingerprint's size being its length.
     */
    predicate Valid() {
      && NoDup(walkDirs) && NoDup(walkFiles)
      && forall f :: f in walkFiles ==> f in content && f in stat && stat[f].size == |content[f]|
    }

    /** get_files(): the tracked directories and files. */
    function Tracked(): Listing {
      GetFiles(walkDirs, walkFiles, true)
    }
  }
}
