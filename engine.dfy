/**
  The snapshot engine: the snapshot index (snapshots.json), the lock
  sentinel, and the operations init, snapshot, checkout, lock and unlock
  over the working tree and the content store.
 */
module Engine {
  import opened Paths
  import opened Records
  import opened Ids
  import opened ChangeDetector
  import opened ContentStore
  import opened WorkingTree
  import opened Permissions

  /** How an operation ended; all but Done are the source's soft refusals, which change nothing. */
  datatype Outcome =
    | Done
    | NotPermitted        // the backup is locked
    | NothingToSnapshot
    | InvalidId
    | Declined            // pending changes and the user did not answer yes
    | PendingChanges      // lock refused
    | AlreadyLocked
    | AlreadyUnlocked

  /** What init writes as the current snapshot id: the string "None", not a missing value. */
  const NoneId: string := "None"

  /** The snapshot with the given id, searching in creation order. */
  function FindSnapshot(snapshots: seq<Snapshot>, id: string): (r: Option<Snapshot>)
    ensures r.Some? ==> r.value in snapshots && r.value.id == id
    ensures r.None? <==> forall s :: s in snapshots ==> s.id != id
  {
    if snapshots == [] then None
    else if snapshots[0].id == id then Some(snapshots[0])
    else FindSnapshot(snapshots[1..], id)
  }

  /**
    get_curr_snapshot: nothing when the current id is missing, and also nothing
    when no snapshot carries the current id (the loop falls through), which
    is the case right after init wrote the string "None".
   */
  function GetCurrSnapshot(snapshots: seq<Snapshot>, currId: Option<string>): (r: Option<Snapshot>)
    ensures r.Some? <==> currId.Some? && exists s :: s in snapshots && s.id == currId.value
    ensures r.Some? ==> r.value in snapshots && r.value.id == currId.value
  {
    if currId.None? then None else FindSnapshot(snapshots, currId.value)
  }

  /** The ids of the blobs recorded for these files in snapshot s. */
  function IdsOf(files: seq<Path>, s: Snapshot): set<string>
    requires forall f :: f in files ==> f in s.fileInfo
  {
    set f | f in files :: s.fileInfo[f].id
  }

  /**
    A snapshot as the engine writes it: its lists are tracked lists (no
    repeats, nothing in the metadata directory), and every recorded file has
    a record whose id is registered in the store.
   */
  predicate Recorded(s: Snapshot, fileIds: seq<string>) {
    && NoDup(s.dirList) && NoDup(s.fileList) && s.OutsideMetadata()
    && (forall f :: f in s.fileList ==> f in s.fileInfo && s.fileInfo[f].id in fileIds)
  }


  class Backup {
    const tree: WorkTree
    const store: Store
    /** snapshots.json: the snapshots in creation order, the ids issued, the current id. */
    var snapshots: seq<Snapshot>
    var snapshotIds: seq<string>
    var currId: Option<string>
    /** Whether the lock sentinel file exists. */
    var locked: bool
    /** The permission calls issued so far. */
    var acl: seq<AclCall>

    /** get_curr_snapshot() on the index. */
    function Current(): (r: Option<Snapshot>)
      reads this`snapshots, this`currId
      ensures r.Some? ==> r.value in snapshots && currId == Some(r.value.id)
      ensures currId.None? ==> r.None?
    {
      GetCurrSnapshot(snapshots, currId)
    }

    /** The snapshot index: ids match their snapshots, are never repeated, and are well-formed. */
    ghost predicate IndexValid()
      reads this`snapshots, this`snapshotIds, store`fileIds
    {
      && |snapshots| == |snapshotIds|
      && (forall i :: 0 <= i < |snapshots| ==> snapshots[i].id == snapshotIds[i])
      && NoDup(snapshotIds)
      && (forall i :: 0 <= i < |snapshotIds| ==> ValidId(snapshotIds[i], SnapshotIdLength))
      && (forall s :: s in snapshots ==> Recorded(s, store.fileIds))
    }

    /** The most recent snapshot. */
    function Last(): Snapshot
      reads this`snapshots
      requires snapshots != []
    {
      snapshots[|snapshots| - 1]
    }

    /** The blob ids lock prunes: those of the live tracked files in the current snapshot. */
    ghost function Pruned(): set<string>
      reads this`snapshots, this`currId, tree
    {
      PrunedIds(tree.View().Tracked().files, Current())
    }

    /**
      The engine's invariant. Unlocked, every registered id has its blob, so
      every snapshot can be compared against and restored. Locked, the live
      files all belong to the current snapshot, and a registered id lacks its
      blob only if one of those live files holds its content.
     */
    ghost predicate Valid()
      reads this`snapshots, this`snapshotIds, this`currId, this`locked, tree, store
    {
      tree.Valid() && store.Valid() && IndexValid() && Complete() && LockedValid()
    }

    /** Unlocked, every registered id has its blob. */
    ghost predicate Complete()
      reads this`locked, store`fileIds, store`blobs
    {
      !locked ==> forall id :: id in store.fileIds ==> id in store.blobs
    }

    /**
      Locked, every live tracked file belongs to the current snapshot, and a
      registered id lacks its blob only if it is the id of one of those files.
     */
    ghost predicate LockedValid()
      reads this`locked, this`snapshots, this`currId, tree, store`fileIds, store`blobs
    {
      locked ==> Sealed(tree.View().Tracked().files, Current(), store.fileIds, store.blobs)
    }

    lemma SnapshotsResolvable()
      requires Valid() && !locked
      ensures forall s :: s in snapshots ==> s.Resolvable(store.blobs)
    {
    }

    /** The pending changes (what status reports): the live tree against the current snapshot. */
    function Pending(): (c: Changes)
      reads this`snapshots, this`snapshotIds, this`currId, this`locked, tree, store
      requires Valid() && !locked
      ensures c.changed <==> c.AnyListed()
      ensures Current().None? ==> c.dirsAdded == tree.View().Tracked().dirs && c.filesAdded == tree.View().Tracked().files
    {
      SnapshotsResolvable();
      GetChanges(Current(), tree.View(), store.blobs)
    }

    /** The changes checkout applies: the live tree against a recorded snapshot. */
    function ChangesSince(s: Snapshot): Changes
      reads this`snapshots, this`snapshotIds, this`currId, this`locked, tree, store
      requires Valid() && !locked && s in snapshots
    {
      SnapshotsResolvable();
      GetChanges(Some(s), tree.View(), store.blobs)
    }

    /**
      init(tag): a fresh metadata directory with an empty store and index
      whose current id is the string "None", full permissions granted over
      the whole tree, then a first snapshot. On a tree with nothing tracked
      that snapshot is refused, so no snapshot exists and the current
      snapshot lookup finds nothing.
     */
    constructor Init(view: TreeView, hash: Bytes -> Digest, tag: string, now: string)
      requires view.Valid()
      requires |view.walkFiles| < IdSpace(ContentIdLength)
      ensures Valid() && !locked
      ensures fresh(tree) && fresh(store) && tree.View() == view && store.hash == hash
      ensures acl == GrantCalls(view.walkDirs, view.walkFiles)
      ensures store.Deduplicated() && !Pending().changed
      ensures tree.View().Tracked().dirs == [] && tree.View().Tracked().files == [] ==>
        && snapshots == [] && currId == Some(NoneId) && Current() == None
        && store.blobs == map[] && store.fileIds == [] && store.hashes == map[]
      ensures tree.View().Tracked().dirs != [] || tree.View().Tracked().files != [] ==>
        && |snapshots| == 1 && snapshots[0].tag == tag && Current() == Some(snapshots[0])
        && Captures(snapshots[0], tree.View(), store.blobs, None, GetChanges(None, tree.View(), map[]))
        && GrewBy([], map[], store.fileIds, store.blobs, snapshots[0].fileInfo, tree.View().Tracked().files)
        && BucketsGrew(store.hash, map[], store.hashes, tree.View().Tracked().files, tree.content)
    {
      tree := new WorkTree(view);
      store := new Store(hash);
      snapshots, snapshotIds, currId := [], [], Some(NoneId);
      locked := false;
      new;
      acl := GrantCalls(view.walkDirs, view.walkFiles);
      FirstSnapshot(tag, now);
    }

    /** init's closing call to snapshot, on an empty store and index. */
    method FirstSnapshot(tag: string, now: string)
      requires tree.Valid() && !locked && snapshots == [] && snapshotIds == [] && currId == Some(NoneId)
      requires store.blobs == map[] && store.fileIds == [] && store.hashes == map[]
      requires |tree.files| < IdSpace(ContentIdLength)
      modifies this`snapshots, this`snapshotIds, this`currId, store
      ensures Valid() && !Pending().changed && store.Deduplicated()
      ensures tree.View().Tracked().dirs == [] && tree.View().Tracked().files == [] ==>
        && snapshots == [] && currId == Some(NoneId) && Current() == None
        && store.blobs == map[] && store.fileIds == [] && store.hashes == map[]
      ensures tree.View().Tracked().dirs != [] || tree.View().Tracked().files != [] ==>
        && |snapshots| == 1 && snapshots[0].tag == tag && Current() == Some(snapshots[0])
        && Captures(snapshots[0], tree.View(), store.blobs, None, GetChanges(None, tree.View(), map[]))
        && GrewBy([], map[], store.fileIds, store.blobs, snapshots[0].fileInfo, tree.View().Tracked().files)
        && BucketsGrew(store.hash, map[], store.hashes, tree.View().Tracked().files, tree.content)
    {
      assert Valid() && store.Deduplicated();
      assert Pending() == GetChanges(None, tree.View(), map[]);
      var _ := Snapshot(Some(tag), now);
      assert tree.View().Tracked().files + [] == tree.View().Tracked().files;
    }

    /**
      snapshot(tag). Refused while locked and when nothing changed. Otherwise
      new and modified files go through add_file, unchanged files inherit
      their id from the current snapshot, and one snapshot with a fresh id is
      appended and made current. Afterwards nothing is pending.
     */
    method Snapshot(tag: Option<string>, now: string) returns (outcome: Outcome)
      requires Valid()
      requires |store.fileIds| + |tree.files| < IdSpace(ContentIdLength)
      requires |snapshotIds| < IdSpace(SnapshotIdLength)
      modifies this`snapshots, this`snapshotIds, this`currId, store
      ensures Valid()
      ensures outcome == Done <==> !old(locked) && old(Pending()).changed
      ensures old(locked) ==> outcome == NotPermitted
      ensures !old(locked) && !old(Pending()).changed ==> outcome == NothingToSnapshot
      ensures outcome != Done ==> unchanged(this) && unchanged(store)
      ensures !locked ==> !Pending().changed
      ensures forall id :: id in old(store.blobs) ==> id in store.blobs && store.blobs[id] == old(store.blobs)[id]
      ensures outcome == Done ==>
        && snapshots != [] && snapshots == old(snapshots) + [Last()]
        && snapshotIds == old(snapshotIds) + [Last().id] && currId == Some(Last().id) && Current() == Some(Last())
        && Last().id !in old(snapshotIds) && ValidId(Last().id, SnapshotIdLength)
        && Last().tag == (if tag.Some? then tag.value else "Snapshot " + now) && Last().time == now
        && Captures(Last(), tree.View(), store.blobs, old(Current()), old(Pending()))
        && GrewBy(old(store.fileIds), old(store.blobs), store.fileIds, store.blobs,
                  Last().fileInfo, old(Pending()).filesAdded + old(Pending()).filesModified)
        && BucketsGrew(store.hash, old(store.hashes), store.hashes,
                       old(Pending()).filesAdded + old(Pending()).filesModified, tree.content)
        && |store.fileIds| <= |old(store.fileIds)| + |old(Pending()).filesAdded| + |old(Pending()).filesModified|
      ensures old(store.Deduplicated()) ==> store.Deduplicated()
      ensures outcome == Done && old(store.Deduplicated()) ==>
        SharesBlobs(Last().fileInfo, old(Pending()).filesAdded + old(Pending()).filesModified, tree.content)
    {
      if locked {
        return NotPermitted;
      }
      var cur := Current();
      var changes := DetectPending();
      if !changes.changed {
        return NothingToSnapshot;
      }
      PendingFacts();
      ghost var dedup := store.Deduplicated();
      var s := TakeSnapshot(cur, changes, tag, now);
      assert Last() == s && old(Pending()) == changes && old(Current()) == cur;
      if dedup {
        EqualBytesShareId(s, tree.View(), store.blobs, cur, changes);
      }
      outcome := Done;
    }

    /**
      What snapshot relies on in the pending changes: every added or modified
      file is live, and every live file that is not added is recorded in the
      current snapshot under a registered id.
     */
    lemma PendingFacts()
      requires Valid() && !locked
      ensures Accounted(Pending(), tree.View().Tracked().files, Current(), store.fileIds)
    {
      var c := Pending();
      if Current().Some? {
        assert Current().value in snapshots;
        ChangesAgainstBaseline(Current().value, tree.View(), store.blobs);
      }
    }

    /** The part of snapshot that runs once there is something to record. */
    method TakeSnapshot(cur: Option<Snapshot>, changes: Changes, tag: Option<string>, now: string) returns (s: Snapshot)
      requires Valid() && !locked && Accounted(changes, tree.View().Tracked().files, cur, store.fileIds)
      requires |store.fileIds| + |tree.files| < IdSpace(ContentIdLength)
      requires |snapshotIds| < IdSpace(SnapshotIdLength)
      modifies this`snapshots, this`snapshotIds, this`currId, store
      ensures Valid() && !Pending().changed
      ensures forall id :: id in old(store.blobs) ==> id in store.blobs && store.blobs[id] == old(store.blobs)[id]
      ensures snapshots == old(snapshots) + [s] && snapshotIds == old(snapshotIds) + [s.id]
      ensures currId == Some(s.id) && Current() == Some(s)
      ensures s.id !in old(snapshotIds) && ValidId(s.id, SnapshotIdLength)
      ensures s.tag == (if tag.Some? then tag.value else "Snapshot " + now) && s.time == now
      ensures Captures(s, tree.View(), store.blobs, cur, changes)
      ensures GrewBy(old(store.fileIds), old(store.blobs), store.fileIds, store.blobs, s.fileInfo, changes.filesAdded + changes.filesModified)
      ensures BucketsGrew(store.hash, old(store.hashes), store.hashes, changes.filesAdded + changes.filesModified, tree.content)
      ensures |store.fileIds| <= |old(store.fileIds)| + |changes.filesAdded| + |changes.filesModified|
      ensures old(store.Deduplicated()) ==> store.Deduplicated()
    {
      var info := RecordLive(cur, changes);
      FreshIdExists(snapshotIds, SnapshotIdLength);
      var sid :| ValidId(sid, SnapshotIdLength) && sid !in snapshotIds;
      var live := tree.View().Tracked();
      s := Records.Snapshot(sid, if tag.Some? then tag.value else "Snapshot " + now, now, live.dirs, live.files, info);
      assert Captures(s, tree.View(), store.blobs, cur, changes);
      Commit(s);
    }

    /** snapshot's file_info loop over the live files, keeping the index valid as the store grows. */
    method RecordLive(cur: Option<Snapshot>, changes: Changes) returns (info: map<Path, FileRecord>)
      requires Valid() && !locked && Accounted(changes, tree.View().Tracked().files, cur, store.fileIds)
      requires |store.fileIds| + |tree.files| < IdSpace(ContentIdLength)
      modifies store
      ensures Valid()
      ensures forall id :: id in old(store.blobs) ==> id in store.blobs && store.blobs[id] == old(store.blobs)[id]
      ensures forall f :: f in info ==> f in tree.View().Tracked().files && info[f].id in store.fileIds
      ensures InfoCaptures(info, tree.View(), store.blobs, cur, changes)
      ensures GrewBy(old(store.fileIds), old(store.blobs), store.fileIds, store.blobs, info, changes.filesAdded + changes.filesModified)
      ensures BucketsGrew(store.hash, old(store.hashes), store.hashes, changes.filesAdded + changes.filesModified, tree.content)
      ensures |store.fileIds| <= |old(store.fileIds)| + |changes.filesAdded| + |changes.filesModified|
      ensures old(store.Deduplicated()) ==> store.Deduplicated()
    {
      var live := tree.View().Tracked();
      var changed := changes.filesAdded + changes.filesModified;
      ghost var registered := store.fileIds;
      info := RecordFiles(store, tree.View(), cur, changed, live.files);
      forall t | t in snapshots
        ensures Recorded(t, store.fileIds)
      {
        RecordedGrows(t, registered, store.fileIds);
      }
    }

    /** Appends a snapshot that records exactly the live tree; nothing is pending afterwards. */
    method Commit(s: Snapshot)
      requires tree.Valid() && store.Valid() && IndexValid() && !locked
      requires forall id :: id in store.fileIds ==> id in store.blobs
      requires s.id !in snapshotIds && ValidId(s.id, SnapshotIdLength)
      requires s.dirList == tree.View().Tracked().dirs && s.fileList == tree.View().Tracked().files
      requires forall f :: f in s.fileList ==> f in s.fileInfo && s.fileInfo[f].stat == tree.stat[f]
      requires forall f :: f in s.fileList ==> s.fileInfo[f].id in store.fileIds
      modifies this`snapshots, this`snapshotIds, this`currId
      ensures Valid() && !Pending().changed
      ensures snapshots == old(snapshots) + [s] && snapshotIds == old(snapshotIds) + [s.id]
      ensures currId == Some(s.id) && Current() == Some(s)
    {
      Append(s);
      SnapshotsResolvable();
      UpToDateRecordHasNoChanges(s, tree.View(), store.blobs);
    }

    /** Appends a snapshot to the index, records its id and makes it current. */
    method Append(s: Snapshot)
      requires IndexValid()
      requires s.id !in snapshotIds && ValidId(s.id, SnapshotIdLength) && Recorded(s, store.fileIds)
      modifies this`snapshots, this`snapshotIds, this`currId
      ensures IndexValid()
      ensures snapshots == old(snapshots) + [s] && snapshotIds == old(snapshotIds) + [s.id]
      ensures currId == Some(s.id) && Current() == Some(s)
    {
      snapshotIds := snapshotIds + [s.id];
      snapshots := snapshots + [s];
      currId := Some(s.id);
      assert forall t :: t in old(snapshots) ==> t.id != s.id;
    }


    /**
      checkout(id). Refused while locked, for an id never issued, and when
      changes are pending and the user does not confirm. Otherwise the tree
      is brought back to the snapshot: afterwards every tracked entry belongs
      to it, every recorded entry outside the removed subtrees is present,
      each recorded file holding its blob's bytes or its recorded
      fingerprint, every removed or modified file holds its blob's bytes,
      and the metadata directory is untouched. The snapshot
      becomes current either way.
     */
    method Checkout(target: string, confirm: bool) returns (outcome: Outcome)
      requires Valid()
      modifies this`currId, tree
      ensures Valid()
      ensures outcome == Done <==> !old(locked) && target in snapshotIds && (confirm || !old(Pending()).changed)
      ensures old(locked) ==> outcome == NotPermitted
      ensures !old(locked) && target !in snapshotIds ==> outcome == InvalidId
      ensures !old(locked) && target in snapshotIds && old(Pending()).changed && !confirm ==> outcome == Declined
      ensures outcome != Done ==> unchanged(this) && unchanged(tree)
      ensures outcome == Done ==> currId == Some(target) && Current().Some? && Current().value.id == target
      ensures outcome == Done ==>
        var s := Current().value;
        && CheckedOut(s, old(ChangesSince(s)), old(tree.View()), tree.View(), store.blobs)
        && RestoredBytes(old(ChangesSince(s)), s, store.blobs, tree.View())
        && Untouched(old(ChangesSince(s)), old(tree.View()), tree.View())
        && (!old(ChangesSince(s)).changed ==> unchanged(tree))
    {
      if locked {
        return NotPermitted;
      }
      if target !in snapshotIds {
        return InvalidId;
      }
      var pending := DetectPending();
      if pending.changed && !confirm {
        return Declined;
      }
      var s := Find(target);
      SwitchTo(s);
      outcome := Done;
    }

    /** The pending changes, computed. */
    method DetectPending() returns (c: Changes)
      requires Valid() && !locked
      ensures c == Pending()
    {
      SnapshotsResolvable();
      c := DetectChanges(Current(), tree.View(), store.blobs);
    }

    /** The snapshot an issued id names. */
    method Find(id: string) returns (s: Snapshot)
      requires IndexValid() && id in snapshotIds
      ensures s in snapshots && s.id == id && FindSnapshot(snapshots, id) == Some(s)
    {
      var i :| 0 <= i < |snapshotIds| && snapshotIds[i] == id;
      assert snapshots[i] in snapshots && snapshots[i].id == id;
      var found := FindSnapshot(snapshots, id);
      s := found.value;
    }

    /** Checkout once it is permitted: bring the tree back to s and make s current. */
    method SwitchTo(s: Snapshot)
      requires Valid() && !locked && s in snapshots && FindSnapshot(snapshots, s.id) == Some(s)
      modifies this`currId, tree
      ensures Valid() && currId == Some(s.id) && Current() == Some(s)
      ensures CheckedOut(s, old(ChangesSince(s)), old(tree.View()), tree.View(), store.blobs)
      ensures RestoredBytes(old(ChangesSince(s)), s, store.blobs, tree.View())
      ensures Untouched(old(ChangesSince(s)), old(tree.View()), tree.View())
      ensures !old(ChangesSince(s)).changed ==> unchanged(tree)
    {
      SnapshotsResolvable();
      var c := DetectChanges(Some(s), tree.View(), store.blobs);
      assert Recorded(s, store.fileIds);
      ApplySnapshot(s, c);
      currId := Some(s.id);
    }


    /**
      The part of checkout that rewrites the tree: nothing when the tree
      shows no change against the snapshot, the five loops otherwise.
     */
    method ApplySnapshot(s: Snapshot, c: Changes)
      requires tree.Valid() && Recorded(s, store.fileIds) && s.Resolvable(store.blobs)
      requires c == GetChanges(Some(s), tree.View(), store.blobs)
      modifies tree
      ensures tree.Valid() && CheckedOut(s, c, old(tree.View()), tree.View(), store.blobs)
      ensures RestoredBytes(c, s, store.blobs, tree.View())
      ensures Untouched(c, old(tree.View()), tree.View())
      ensures !c.changed ==> unchanged(tree)
    {
      ghost var before := tree.View();
      ChangesAgainstBaseline(s, before, store.blobs);
      if c.changed {
        tree.ApplyChanges(c, s, store.blobs);
      }
      CheckoutKeepsOnlySnapshot(s, c, before, tree.View(), store.blobs);
      CheckoutRestoresSnapshot(s, c, before, tree.View(), store.blobs);
      ChangesAccountForBaseline(s, before, store.blobs);
      ChangesOutsideMetadata(s, before, store.blobs);
      CheckoutSparesMetadata(c, s, before, tree.View(), store.blobs);
    }

    /**
      With nothing pending, every live tracked file belongs to the current
      snapshot, and with no current snapshot nothing is tracked.
     */
    lemma LiveIsRecorded()
      requires Valid() && !locked && !Pending().changed
      ensures Current().None? ==> tree.View().Tracked().files == []
      ensures Current().Some? ==> forall f :: f in tree.View().Tracked().files ==> f in Current().value.fileList
    {
      var c := Pending();
      NothingListed(c.filesAdded);
      if Current().Some? {
        assert Current().value in snapshots;
        ChangesAgainstBaseline(Current().value, tree.View(), store.blobs);
      }
    }

    /**
      lock(). Refused when already locked and when changes are pending.
      Otherwise the blob of every live tracked file is deleted from the
      store (the live file itself now holds the only copy), read-only
      permissions are applied bottom-up, and the sentinel is written.
     */
    method Lock() returns (outcome: Outcome)
      requires Valid()
      modifies this`locked, this`acl, store`blobs
      ensures Valid()
      ensures outcome == Done <==> !old(locked) && !old(Pending()).changed
      ensures old(locked) ==> outcome == AlreadyLocked
      ensures !old(locked) && old(Pending()).changed ==> outcome == PendingChanges
      ensures outcome != Done ==> unchanged(this) && unchanged(store)
      ensures outcome == Done ==>
        && locked && acl == old(acl) + RestrictCalls(tree.dirs, tree.files)
        && store.blobs == old(store.blobs) - Pruned()
      ensures old(store.Deduplicated()) ==> store.Deduplicated()
    {
      if locked {
        return AlreadyLocked;
      }
      var changes := DetectPending();
      if changes.changed {
        return PendingChanges;
      }
      LiveIsRecorded();
      Seal();
      outcome := Done;
    }

    /** lock once it is permitted. */
    method Seal()
      requires Valid() && !locked
      requires Current().None? ==> tree.View().Tracked().files == []
      requires Current().Some? ==> forall f :: f in tree.View().Tracked().files ==> f in Current().value.fileList
      modifies this`locked, this`acl, store`blobs
      ensures Valid() && locked && acl == old(acl) + RestrictCalls(tree.dirs, tree.files)
      ensures store.blobs == old(store.blobs) - Pruned()
      ensures old(store.Deduplicated()) ==> store.Deduplicated()
    {
      var cur := Current();
      var live := tree.View().Tracked().files;
      if cur.Some? {
        assert cur.value in snapshots;
        PruneFiles(store, cur.value, live);
      } else {
        assert store.blobs == old(store.blobs) - PrunedIds(live, cur);
      }
      PruningSeals(live, cur, store.fileIds, old(store.blobs));
      acl := acl + RestrictCalls(tree.dirs, tree.files);
      locked := true;
    }

    /**
      unlock(). Refused when not locked. Otherwise every live tracked file
      whose blob is missing is copied back into the store, full permissions
      are granted again over the whole tree, and the sentinel is removed.
      Afterwards every registered id has its blob again.
     */
    method Unlock() returns (outcome: Outcome)
      requires Valid()
      modifies this`locked, this`acl, store`blobs
      ensures Valid()
      ensures !old(locked) ==> outcome == AlreadyUnlocked && unchanged(this) && unchanged(store)
      ensures old(locked) ==> outcome == Done && !locked && acl == old(acl) + GrantCalls(tree.dirs, tree.files)
      ensures forall id :: id in old(store.blobs) ==> id in store.blobs && store.blobs[id] == old(store.blobs)[id]
      ensures RestoredFrom(tree.View().Tracked().files, tree.content, Current(), old(store.blobs), store.blobs)
    {
      if !locked {
        return AlreadyUnlocked;
      }
      Reopen();
      outcome := Done;
    }

    /** unlock once it is permitted. */
    method Reopen()
      requires Valid() && locked
      modifies this`locked, this`acl, store`blobs
      ensures Valid() && !locked && acl == old(acl) + GrantCalls(tree.dirs, tree.files)
      ensures forall id :: id in old(store.blobs) ==> id in store.blobs && store.blobs[id] == old(store.blobs)[id]
      ensures RestoredFrom(tree.View().Tracked().files, tree.content, Current(), old(store.blobs), store.blobs)
    {
      var cur := Current();
      var live := tree.View().Tracked().files;
      if cur.Some? {
        assert cur.value in snapshots;
        RestoreFiles(store, cur.value, tree.View(), live);
      }
      acl := acl + GrantCalls(tree.dirs, tree.files);
      locked := false;
      RestoringCompletes(tree.View().Tracked().files, tree.content, Current(), store.fileIds, old(store.blobs), store.blobs);
    }
  }

  /** The ids of the live files' records in the current snapshot, when they all have one. */
  ghost function PrunedIds(live: seq<Path>, cur: Option<Snapshot>): set<string> {
    match cur
    case None => {}
    case Some(c) => if forall f :: f in live ==> f in c.fileInfo then IdsOf(live, c) else {}
  }

  /**
    The locked state of the store: every live tracked file belongs to the
    current snapshot (nothing is tracked without one), and a registered id
    lacks its blob only if one of those files is recorded under it.
   */
  ghost predicate Sealed(live: seq<Path>, cur: Option<Snapshot>, fileIds: seq<string>, blobs: map<string, Bytes>) {
    && (cur.None? ==> live == [])
    && (cur.Some? ==> forall f :: f in live ==> f in cur.value.fileList)
    && forall id :: id in fileIds && id !in blobs ==> id in PrunedIds(live, cur)
  }

  /** Pruning the live files' blobs from a complete store leaves it sealed. */
  lemma PruningSeals(live: seq<Path>, cur: Option<Snapshot>, fileIds: seq<string>, blobs: map<string, Bytes>)
    requires forall id :: id in fileIds ==> id in blobs
    requires cur.None? ==> live == []
    requires cur.Some? ==> forall f :: f in live ==> f in cur.value.fileList && f in cur.value.fileInfo
    ensures Sealed(live, cur, fileIds, blobs - PrunedIds(live, cur))
  {
  }

  /**
    Every blob that unlock brings back is the one of a pruned id, and holds
    the bytes of a live file recorded under that id in the current snapshot.
   */
  ghost predicate RestoredFrom(live: seq<Path>, content: map<Path, Bytes>, cur: Option<Snapshot>,
                               before: map<string, Bytes>, after: map<string, Bytes>) {
    forall id :: id in after && id !in before ==>
      && id in PrunedIds(live, cur) && cur.Some?
      && CopiedFromFirst(live, |live|, cur.value.fileInfo, content, id, after[id])
  }

  /**
    bytes are those of the first of the first n files recorded under id:
    once that file's copy exists, later files with the same id are skipped.
   */
  ghost predicate CopiedFromFirst(files: seq<Path>, n: nat, info: map<Path, FileRecord>, content: map<Path, Bytes>,
                                  id: string, bytes: Bytes) {
    exists k :: 0 <= k < n && k < |files| && files[k] in info && files[k] in content
      && info[files[k]].id == id && bytes == content[files[k]]
      && forall j :: 0 <= j < k ==> files[j] in info && info[files[j]].id != id
  }

  /**
    A sealed store in which every live file's recorded blob is present again
    is complete: each missing id was one of those. When the blobs brought
    back hold live files' bytes, they are restored from pruned ids.
   */
  lemma {:induction false} RestoringCompletes(live: seq<Path>, content: map<Path, Bytes>, cur: Option<Snapshot>,
                                              fileIds: seq<string>, before: map<string, Bytes>, after: map<string, Bytes>)
    requires Sealed(live, cur, fileIds, before)
    requires forall id :: id in before ==> id in after
    requires cur.Some? ==> forall f :: f in live ==> f in cur.value.fileInfo && f in content && cur.value.fileInfo[f].id in after
    requires forall id :: id in after && id !in before ==>
      cur.Some? && CopiedFromFirst(live, |live|, cur.value.fileInfo, content, id, after[id])
    ensures forall id :: id in fileIds ==> id in after
    ensures RestoredFrom(live, content, cur, before, after)
  {
    forall id | id in fileIds
      ensures id in after
    {
      if id !in before {
        var c := cur.value;
        var f :| f in live && c.fileInfo[f].id == id;
      }
    }
    forall id | id in after && id !in before
      ensures id in PrunedIds(live, cur)
    {
      var k :| 0 <= k < |live| && live[k] in cur.value.fileInfo && cur.value.fileInfo[live[k]].id == id;
      assert live[k] in live;
    }
  }

  /**
    unlock undoes lock's pruning: when every live file holds its recorded
    blob's bytes, restoring the pruned blobs from the live files gives back
    exactly the store as it was before lock.
   */
  lemma {:induction false} UnlockUndoesLock(live: seq<Path>, content: map<Path, Bytes>, cur: Option<Snapshot>,
                                            blobs: map<string, Bytes>, pruned: map<string, Bytes>, restored: map<string, Bytes>)
    requires cur.None? ==> live == []
    requires cur.Some? ==> forall f :: f in live ==>
      && f in cur.value.fileInfo && f in content && cur.value.fileInfo[f].id in blobs
      && blobs[cur.value.fileInfo[f].id] == content[f]
    requires pruned == blobs - PrunedIds(live, cur)
    requires forall id :: id in pruned ==> id in restored && restored[id] == pruned[id]
    requires cur.Some? ==> forall f :: f in live ==> cur.value.fileInfo[f].id in restored
    requires RestoredFrom(live, content, cur, pruned, restored)
    ensures restored == blobs
  {
    forall id | id in restored
      ensures id in blobs && restored[id] == blobs[id]
    {
      if id !in pruned {
        var k :| 0 <= k < |live| && live[k] in cur.value.fileInfo && live[k] in content
          && cur.value.fileInfo[live[k]].id == id && restored[id] == content[live[k]];
        assert live[k] in live;
      }
    }
    forall id | id in blobs
      ensures id in restored
    {
      if id !in pruned {
        var f :| f in live && cur.value.fileInfo[f].id == id;
      }
    }
  }

  /**
    Changes that account for the live files: the added and modified ones are
    live, and every other live file is recorded in the current snapshot
    under a registered id.
   */
  ghost predicate Accounted(c: Changes, live: seq<Path>, cur: Option<Snapshot>, fileIds: seq<string>) {
    && (forall f :: f in c.filesAdded || f in c.filesModified ==> f in live)
    && (forall f :: f in live && f !in c.filesAdded ==>
          cur.Some? && f in cur.value.fileInfo && cur.value.fileInfo[f].id in fileIds)
  }

  /**
    Snapshot s records the tree as it is: exactly the tracked lists, each
    file's fingerprint, the stored bytes of every added or modified file,
    and for every other file the id it had in the previous current snapshot.
   */
  ghost predicate Captures(s: Snapshot, view: TreeView, blobs: map<string, Bytes>, cur: Option<Snapshot>, changes: Changes) {
    && s.dirList == view.Tracked().dirs && s.fileList == view.Tracked().files
    && InfoCaptures(s.fileInfo, view, blobs, cur, changes)
  }

  /** The file records of such a snapshot: one for each tracked file of the view and none for any other path. */
  ghost predicate InfoCaptures(info: map<Path, FileRecord>, view: TreeView, blobs: map<string, Bytes>,
                               cur: Option<Snapshot>, changes: Changes) {
    var live := view.Tracked().files;
    && (forall f :: f in info ==> f in live)
    && (forall f :: f in live ==> f in info && f in view.stat && info[f].stat == view.stat[f])
    && (forall f :: f in changes.filesAdded || f in changes.filesModified ==>
          && f in info && info[f].id in blobs && f in view.content
          && blobs[info[f].id] == view.content[f])
    && (forall f :: f in live && f !in changes.filesAdded && f !in changes.filesModified ==>
          && cur.Some? && f in cur.value.fileInfo && f in info
          && info[f].id == cur.value.fileInfo[f].id)
  }

  /** Changed files with the same bytes were recorded under the same id. */
  ghost predicate SharesBlobs(info: map<Path, FileRecord>, changed: seq<Path>, content: map<Path, Bytes>) {
    forall f, g ::
      (f in changed && g in changed && f in info && g in info && f in content && g in content && content[f] == content[g])
      ==> info[f].id == info[g].id
  }

  /**
    In a store without duplicate blobs, a snapshot that stored its changed
    files records equal contents under one id: add_file found the first
    copy when it met the second.
   */
  lemma EqualBytesShareId(s: Snapshot, view: TreeView, blobs: map<string, Bytes>, cur: Option<Snapshot>, changes: Changes)
    requires Captures(s, view, blobs, cur, changes) && Distinct(blobs)
    ensures SharesBlobs(s.fileInfo, changes.filesAdded + changes.filesModified, view.content)
  {
    forall f, g | f in changes.filesAdded + changes.filesModified && g in changes.filesAdded + changes.filesModified
      && f in s.fileInfo && g in s.fileInfo && f in view.content && g in view.content && view.content[f] == view.content[g]
      ensures s.fileInfo[f].id == s.fileInfo[g].id
    {
      assert blobs[s.fileInfo[f].id] == view.content[f] && blobs[s.fileInfo[g].id] == view.content[g];
    }
  }

  lemma RecordedGrows(s: Snapshot, before: seq<string>, after: seq<string>)
    requires Recorded(s, before) && before <= after
    ensures Recorded(s, after)
  {
    assert forall id :: id in before ==> id in after;
  }

  /** The store only grew: registered ids stay registered and existing blobs keep their bytes. */
  ghost predicate Grows(ids0: seq<string>, blobs0: map<string, Bytes>, ids1: seq<string>, blobs1: map<string, Bytes>) {
    && ids0 <= ids1
    && forall id :: id in blobs0 ==> id in blobs1 && blobs1[id] == blobs0[id]
  }

  /**
    info records the first n files and nothing else: each with its live
    fingerprint and a registered id, a changed file's id naming a blob with
    its live bytes, any other file's id inherited from the current snapshot.
   */
  ghost predicate RecordedPrefix(files: seq<Path>, n: nat, info: map<Path, FileRecord>, view: TreeView,
                                 cur: Option<Snapshot>, changed: seq<Path>, fileIds: seq<string>, blobs: map<string, Bytes>) {
    && n <= |files|
    && (forall k :: 0 <= k < n ==> files[k] in info)
    && (forall k :: n <= k < |files| ==> files[k] !in info)
    && (forall f :: f in info ==> f in files)
    && (forall f :: f in info ==> f in view.stat && info[f].stat == view.stat[f] && info[f].id in fileIds)
    && (forall f :: f in info && f in changed ==>
          info[f].id in blobs && f in view.content && blobs[info[f].id] == view.content[f])
    && (forall f :: f in info && f !in changed ==>
          cur.Some? && f in cur.value.fileInfo && info[f].id == cur.value.fileInfo[f].id)
  }

  /** Recording files[i] extends the recorded prefix by one, however the store grew. */
  lemma RecordStep(files: seq<Path>, i: nat, info: map<Path, FileRecord>, rec: FileRecord, view: TreeView,
                   cur: Option<Snapshot>, changed: seq<Path>,
                   ids0: seq<string>, blobs0: map<string, Bytes>, ids1: seq<string>, blobs1: map<string, Bytes>)
    requires RecordedPrefix(files, i, info, view, cur, changed, ids0, blobs0) && i < |files| && NoDup(files)
    requires Grows(ids0, blobs0, ids1, blobs1)
    requires files[i] in view.stat && rec.stat == view.stat[files[i]] && rec.id in ids1
    requires files[i] in changed ==> rec.id in blobs1 && files[i] in view.content && blobs1[rec.id] == view.content[files[i]]
    requires files[i] !in changed ==> cur.Some? && files[i] in cur.value.fileInfo && rec.id == cur.value.fileInfo[files[i]].id
    ensures RecordedPrefix(files, i + 1, info[files[i] := rec], view, cur, changed, ids1, blobs1)
  {
    assert forall id :: id in ids0 ==> id in ids1;
  }

  /**
    The store grew only by the blobs of changed files: the old ids and
    blobs are kept, and every id registered or stored since is the id
    recorded for a changed file in info.
   */
  ghost predicate GrewBy(ids0: seq<string>, blobs0: map<string, Bytes>, ids1: seq<string>, blobs1: map<string, Bytes>,
                         info: map<Path, FileRecord>, changed: seq<Path>) {
    && Grows(ids0, blobs0, ids1, blobs1)
    && (forall id :: id in ids1 && id !in ids0 ==> exists f :: f in changed && f in info && info[f].id == id)
    && (forall id :: id in blobs1 && id !in blobs0 ==> exists f :: f in changed && f in info && info[f].id == id)
  }

  /**
    Recording files[i] keeps the growth accounted for: an unchanged file
    leaves the store alone, and a changed one adds at most its own id.
   */
  lemma GrowStep(files: seq<Path>, i: nat, info: map<Path, FileRecord>, rec: FileRecord, changed: seq<Path>,
                 ids0: seq<string>, blobs0: map<string, Bytes>, ids1: seq<string>, blobs1: map<string, Bytes>,
                 ids2: seq<string>, blobs2: map<string, Bytes>)
    requires i < |files| && files[i] !in info
    requires GrewBy(ids0, blobs0, ids1, blobs1, info, changed) && Grows(ids1, blobs1, ids2, blobs2)
    requires files[i] !in changed ==> ids2 == ids1 && blobs2 == blobs1
    requires files[i] in changed ==>
      && (forall id :: id in blobs2 ==> id in blobs1 || id == rec.id)
      && (ids2 == ids1 || ids2 == ids1 + [rec.id])
    ensures GrewBy(ids0, blobs0, ids2, blobs2, info[files[i] := rec], changed)
  {
    var info' := info[files[i] := rec];
    forall id | id in ids2 && id !in ids0
      ensures exists f :: f in changed && f in info' && info'[f].id == id
    {
      if id in ids1 {
        var f :| f in changed && f in info && info[f].id == id;
        assert info'[f] == info[f];
      } else {
        assert info'[files[i]] == rec;
      }
    }
    forall id | id in blobs2 && id !in blobs0
      ensures exists f :: f in changed && f in info' && info'[f].id == id
    {
      if id in blobs1 {
        var f :| f in changed && f in info && info[f].id == id;
        assert info'[f] == info[f];
      } else {
        assert info'[files[i]] == rec;
      }
    }
  }

  /** How many of the files are listed as changed. */
  function ChangedCount(files: seq<Path>, changed: seq<Path>): (n: nat)
    ensures n <= |files|
  {
    if files == [] then 0
    else ChangedCount(files[..|files| - 1], changed) + (if files[|files| - 1] in changed then 1 else 0)
  }

  /** Counting one more file of the list. */
  lemma ChangedCountStep(files: seq<Path>, i: nat, changed: seq<Path>)
    requires i < |files|
    ensures ChangedCount(files[..i + 1], changed) == ChangedCount(files[..i], changed) + (if files[i] in changed then 1 else 0)
  {
    assert files[..i + 1][..i] == files[..i];
  }

  lemma {:induction false} ChangedSetSize(files: seq<Path>, changed: seq<Path>)
    requires NoDup(files)
    ensures |set f | f in files && f in changed| == ChangedCount(files, changed)
  {
    if files != [] {
      var init, last := files[..|files| - 1], files[|files| - 1];
      assert NoDup(init) by {
        forall i, j | 0 <= i < j < |init|
          ensures init[i] != init[j]
        {
          assert init[i] == files[i] && init[j] == files[j];
        }
      }
      ChangedSetSize(init, changed);
      assert last !in init by {
        forall k | 0 <= k < |init|
          ensures init[k] != last
        {
          assert init[k] == files[k];
        }
      }
      assert forall f :: f in files <==> f in init || f == last;
      if last in changed {
        assert (set f | f in files && f in changed) == (set f | f in init && f in changed) + {last};
      } else {
        assert (set f | f in files && f in changed) == (set f | f in init && f in changed);
      }
    }
  }

  /** A list without repeats has no more changed entries than the changed list is long. */
  lemma ChangedCountBound(files: seq<Path>, changed: seq<Path>)
    requires NoDup(files)
    ensures ChangedCount(files, changed) <= |changed|
  {
    ChangedSetSize(files, changed);
    SeqSetSize(changed);
    SubsetSize(set f | f in files && f in changed, set x | x in changed);
  }
  /**
    The state of snapshot's file_info loop after the first i files: the
    store grew only by changed files' blobs, by at most one id per changed
    file so far, and info records exactly those i files.
   */
  ghost predicate Progress(files: seq<Path>, i: nat, info: map<Path, FileRecord>, view: TreeView, cur: Option<Snapshot>,
                           changed: seq<Path>, ids0: seq<string>, blobs0: map<string, Bytes>,
                           ids: seq<string>, blobs: map<string, Bytes>) {
    && i <= |files|
    && GrewBy(ids0, blobs0, ids, blobs, info, changed)
    && |ids| <= |ids0| + ChangedCount(files[..i], changed)
    && RecordedPrefix(files, i, info, view, cur, changed, ids, blobs)
  }

  /** Recording files[i] as RecordFile does advances the loop state by one file. */
  lemma ProgressStep(files: seq<Path>, i: nat, info: map<Path, FileRecord>, rec: FileRecord, view: TreeView,
                     cur: Option<Snapshot>, changed: seq<Path>, ids0: seq<string>, blobs0: map<string, Bytes>,
                     ids1: seq<string>, blobs1: map<string, Bytes>, ids2: seq<string>, blobs2: map<string, Bytes>,
                     hash: Bytes -> Digest, hashes0: map<Digest, seq<string>>,
                     hashes1: map<Digest, seq<string>>, hashes2: map<Digest, seq<string>>)
    requires Progress(files, i, info, view, cur, changed, ids0, blobs0, ids1, blobs1)
    requires BucketsGrew(hash, hashes0, hashes1, changed, view.content)
    requires i < |files| && NoDup(files)
    requires FileRecorded(files[i], rec, view, cur, changed, ids1, blobs1, ids2, blobs2, hash, hashes1, hashes2)
    ensures Progress(files, i + 1, info[files[i] := rec], view, cur, changed, ids0, blobs0, ids2, blobs2)
    ensures BucketsGrew(hash, hashes0, hashes2, changed, view.content)
  {
    ChangedCountStep(files, i, changed);
    RecordStep(files, i, info, rec, view, cur, changed, ids1, blobs1, ids2, blobs2);
    GrowStep(files, i, info, rec, changed, ids0, blobs0, ids1, blobs1, ids2, blobs2);
    BucketStep(files[i], rec.id, changed, view.content, hash, hashes0, hashes1, hashes2);
  }

  /**
    The hash index grew only through add_file on the changed files: every
    existing bucket keeps its ids as a prefix, and a digest whose bucket is
    new or different is the digest of some changed file's bytes.
   */
  ghost predicate BucketsGrew(hash: Bytes -> Digest, hashes0: map<Digest, seq<string>>, hashes1: map<Digest, seq<string>>,
                              changed: seq<Path>, content: map<Path, Bytes>) {
    && (forall h :: h in hashes0 ==> h in hashes1 && hashes0[h] <= hashes1[h])
    && (forall h :: h in hashes1 && (h !in hashes0 || hashes1[h] != hashes0[h]) ==>
          exists f :: f in changed && f in content && hash(content[f]) == h)
  }

  /** add_file on a changed file f touches at most the bucket of f's digest. */
  lemma BucketStep(f: Path, id: string, changed: seq<Path>, content: map<Path, Bytes>, hash: Bytes -> Digest,
                   hashes0: map<Digest, seq<string>>, hashes1: map<Digest, seq<string>>, hashes2: map<Digest, seq<string>>)
    requires BucketsGrew(hash, hashes0, hashes1, changed, content)
    requires f !in changed ==> hashes2 == hashes1
    requires f in changed ==>
      && f in content
      && (hashes2 == hashes1 || hashes2 == hashes1[hash(content[f]) := Bucket(hashes1, hash(content[f])) + [id]])
    ensures BucketsGrew(hash, hashes0, hashes2, changed, content)
  {
    if f in changed && hashes2 != hashes1 {
      var d := hash(content[f]);
      forall h | h in hashes0
        ensures h in hashes2 && hashes0[h] <= hashes2[h]
      {
        if h == d {
          assert hashes1[h] <= hashes2[h];
        }
      }
    }
  }

  /** After add_file on the changed files, the bucket of any digest no changed file has is as it was. */
  lemma OtherBucketsKept(hash: Bytes -> Digest, hashes0: map<Digest, seq<string>>, hashes1: map<Digest, seq<string>>,
                         changed: seq<Path>, content: map<Path, Bytes>, h: Digest)
    requires BucketsGrew(hash, hashes0, hashes1, changed, content)
    requires forall f :: f in changed && f in content ==> hash(content[f]) != h
    ensures Bucket(hashes1, h) == Bucket(hashes0, h)
  {
    if h in hashes1 {
      assert h in hashes0 && hashes1[h] == hashes0[h];
    }
  }

  /** Mid-loop the registry only grew, by at most one id per file recorded so far. */
  lemma ProgressRoom(files: seq<Path>, i: nat, info: map<Path, FileRecord>, view: TreeView, cur: Option<Snapshot>,
                     changed: seq<Path>, ids0: seq<string>, blobs0: map<string, Bytes>,
                     ids: seq<string>, blobs: map<string, Bytes>)
    requires Progress(files, i, info, view, cur, changed, ids0, blobs0, ids, blobs)
    ensures (forall id :: id in ids0 ==> id in ids) && |ids| <= |ids0| + i
  {
    assert |files[..i]| == i;
  }

  /** After the last file, the loop state gives RecordFiles' postcondition. */
  lemma ProgressDone(files: seq<Path>, info: map<Path, FileRecord>, view: TreeView, cur: Option<Snapshot>,
                     changed: seq<Path>, ids0: seq<string>, blobs0: map<string, Bytes>,
                     ids: seq<string>, blobs: map<string, Bytes>)
    requires Progress(files, |files|, info, view, cur, changed, ids0, blobs0, ids, blobs) && NoDup(files)
    ensures GrewBy(ids0, blobs0, ids, blobs, info, changed)
    ensures |ids| <= |ids0| + |changed|
    ensures RecordedPrefix(files, |files|, info, view, cur, changed, ids, blobs)
  {
    assert files[..|files|] == files;
    ChangedCountBound(files, changed);
  }


  /**
    snapshot's file_info loop: one record per live file, its id from
    add_file for added and modified files, else from the current snapshot.
    The store only grows.
   */
  method RecordFiles(store: Store, view: TreeView, cur: Option<Snapshot>, changed: seq<Path>, files: seq<Path>)
    returns (info: map<Path, FileRecord>)
    requires store.Valid() && forall id :: id in store.fileIds ==> id in store.blobs
    requires forall f :: f in files ==> f in view.content && f in view.stat
    requires forall f :: f in files && f !in changed ==>
      cur.Some? && f in cur.value.fileInfo && cur.value.fileInfo[f].id in store.fileIds
    requires |store.fileIds| + |files| < IdSpace(ContentIdLength)
    requires NoDup(files)
    modifies store
    ensures store.Valid() && forall id :: id in store.fileIds ==> id in store.blobs
    ensures GrewBy(old(store.fileIds), old(store.blobs), store.fileIds, store.blobs, info, changed)
    ensures BucketsGrew(store.hash, old(store.hashes), store.hashes, changed, view.content)
    ensures |store.fileIds| <= |old(store.fileIds)| + |changed|
    ensures RecordedPrefix(files, |files|, info, view, cur, changed, store.fileIds, store.blobs)
    ensures old(store.Deduplicated()) ==> store.Deduplicated()
  {
    info := map[];
    var i := 0;
    ghost var ids0, blobs0, hashes0 := store.fileIds, store.blobs, store.hashes;
    ghost var dedup := store.Deduplicated();
    while i < |files|
      invariant i <= |files|
      invariant store.Valid() && forall id :: id in store.fileIds ==> id in store.blobs
      invariant Progress(files, i, info, view, cur, changed, ids0, blobs0, store.fileIds, store.blobs)
      invariant BucketsGrew(store.hash, hashes0, store.hashes, changed, view.content)
      invariant dedup ==> store.Deduplicated()
    {
      info := RecordNext(store, view, cur, changed, files, i, info, ids0, blobs0, hashes0);
      i := i + 1;
    }
    ProgressDone(files, info, view, cur, changed, ids0, blobs0, store.fileIds, store.blobs);
  }

  /** One pass of the file_info loop: files[i] recorded into info. */
  method RecordNext(store: Store, view: TreeView, cur: Option<Snapshot>, changed: seq<Path>, files: seq<Path>, i: nat,
                    info: map<Path, FileRecord>, ghost ids0: seq<string>, ghost blobs0: map<string, Bytes>,
                    ghost hashes0: map<Digest, seq<string>>)
    returns (info': map<Path, FileRecord>)
    requires i < |files| && NoDup(files)
    requires store.Valid() && forall id :: id in store.fileIds ==> id in store.blobs
    requires forall f :: f in files ==> f in view.content && f in view.stat
    requires forall f :: f in files && f !in changed ==>
      cur.Some? && f in cur.value.fileInfo && cur.value.fileInfo[f].id in ids0
    requires |ids0| + |files| < IdSpace(ContentIdLength)
    requires Progress(files, i, info, view, cur, changed, ids0, blobs0, store.fileIds, store.blobs)
    requires BucketsGrew(store.hash, hashes0, store.hashes, changed, view.content)
    modifies store
    ensures store.Valid() && forall id :: id in store.fileIds ==> id in store.blobs
    ensures Progress(files, i + 1, info', view, cur, changed, ids0, blobs0, store.fileIds, store.blobs)
    ensures BucketsGrew(store.hash, hashes0, store.hashes, changed, view.content)
    ensures old(store.Deduplicated()) ==> store.Deduplicated()
  {
    var f := files[i];
    ghost var ids1, blobs1, hashes1 := store.fileIds, store.blobs, store.hashes;
    ProgressRoom(files, i, info, view, cur, changed, ids0, blobs0, ids1, blobs1);
    var rec := RecordFile(store, view, cur, changed, f);
    ProgressStep(files, i, info, rec, view, cur, changed, ids0, blobs0, ids1, blobs1, store.fileIds, store.blobs,
                 store.hash, hashes0, hashes1, store.hashes);
    info' := info[f := rec];
  }

  /** The record of one file: add_file for an added or modified file, else the inherited id. */
  method RecordFile(store: Store, view: TreeView, cur: Option<Snapshot>, changed: seq<Path>, f: Path)
    returns (rec: FileRecord)
    requires store.Valid() && forall id :: id in store.fileIds ==> id in store.blobs
    requires f in view.content && f in view.stat
    requires f !in changed ==> cur.Some? && f in cur.value.fileInfo && cur.value.fileInfo[f].id in store.fileIds
    requires |store.fileIds| < IdSpace(ContentIdLength)
    modifies store
    ensures store.Valid() && forall id :: id in store.fileIds ==> id in store.blobs
    ensures FileRecorded(f, rec, view, cur, changed, old(store.fileIds), old(store.blobs), store.fileIds, store.blobs,
                         store.hash, old(store.hashes), store.hashes)
    ensures f !in changed ==> unchanged(store)
    ensures old(store.Deduplicated()) ==> store.Deduplicated()
  {
    var id;
    if f in changed {
      id := store.AddFile(view.content[f]);
    } else {
      id := cur.value.fileInfo[f].id;
    }
    rec := FileRecord(id, view.stat[f]);
  }

  /**
    f recorded as snapshot does it, as the store went from (ids0, blobs0,
    hashes0) to (ids1, blobs1, hashes1): the live fingerprint and a
    registered id; a changed file goes through add_file, so its id names a
    blob with its live bytes, and either the registry and the hash index are
    unchanged or the registry gains exactly that new id and the bucket of
    the file's digest gains it at its end; any other file inherits its id
    from the current snapshot and the store is left alone. Existing blobs
    keep their bytes either way.
   */
  ghost predicate FileRecorded(f: Path, rec: FileRecord, view: TreeView, cur: Option<Snapshot>, changed: seq<Path>,
                               ids0: seq<string>, blobs0: map<string, Bytes>, ids1: seq<string>, blobs1: map<string, Bytes>,
                               hash: Bytes -> Digest, hashes0: map<Digest, seq<string>>, hashes1: map<Digest, seq<string>>) {
    && Grows(ids0, blobs0, ids1, blobs1)
    && f in view.stat && rec.stat == view.stat[f] && rec.id in ids1
    && (f in changed ==>
          && f in view.content && blobs1 == blobs0[rec.id := view.content[f]]
          && ((ids1 == ids0 && hashes1 == hashes0)
              || (&& rec.id !in ids0 && ids1 == ids0 + [rec.id]
                  && hashes1 == hashes0[hash(view.content[f]) := Bucket(hashes0, hash(view.content[f])) + [rec.id]])))
    && (f !in changed ==>
          && cur.Some? && f in cur.value.fileInfo && rec.id == cur.value.fileInfo[f].id
          && ids1 == ids0 && blobs1 == blobs0 && hashes1 == hashes0)
  }

  /** After checkout every tracked entry belongs to the snapshot. */
  ghost predicate OnlySnapshot(s: Snapshot, after: TreeView) {
    && (forall f :: f in after.walkFiles && !Under(f, BakDir) ==> f in s.fileList)
    && (forall d :: d in after.walkDirs && !Within(d, BakDir) ==> d in s.dirList)
  }

  /**
    After checkout every entry of the snapshot outside the subtrees that
    were removed is present, and each of its files holds its blob's bytes or
    carries its recorded fingerprint. (On a real file system a snapshot never
    holds an entry beneath a directory it lacks, so no entry is excepted.)
   */
  ghost predicate SnapshotPresent(s: Snapshot, c: Changes, after: TreeView, blobs: map<string, Bytes>) {
    && (forall d :: d in s.dirList && WithinNone(d, c.dirsAdded) ==> d in after.walkDirs)
    && (forall f :: f in s.fileList && UnderNone(f, c.dirsAdded) ==>
          && f in after.walkFiles && f in s.fileInfo && f in after.content && f in after.stat
          && ((s.fileInfo[f].id in blobs && after.content[f] == blobs[s.fileInfo[f].id])
              || after.stat[f] == s.fileInfo[f].stat))
  }

  /** The metadata directory's entries survive checkout with their bytes and fingerprints. */
  ghost predicate MetadataKept(before: TreeView, after: TreeView) {
    && (forall d :: d in before.walkDirs && Within(d, BakDir) ==> d in after.walkDirs)
    && (forall f :: f in before.walkFiles && Under(f, BakDir) ==>
          && f in after.walkFiles && f in before.content && f in after.content && f in before.stat && f in after.stat
          && after.content[f] == before.content[f] && after.stat[f] == before.stat[f])
  }

  ghost predicate CheckedOut(s: Snapshot, c: Changes, before: TreeView, after: TreeView, blobs: map<string, Bytes>) {
    OnlySnapshot(s, after) && SnapshotPresent(s, c, after, blobs) && MetadataKept(before, after)
  }

  lemma CheckoutKeepsOnlySnapshot(s: Snapshot, c: Changes, before: TreeView, after: TreeView, blobs: map<string, Bytes>)
    requires before.Valid() && s.Resolvable(blobs)
    requires c == GetChanges(Some(s), before, blobs) && Applied(c, s, blobs, before, after)
    ensures OnlySnapshot(s, after)
  {
    ChangesAgainstBaseline(s, before, blobs);
  }

  lemma CheckoutRestoresSnapshot(s: Snapshot, c: Changes, before: TreeView, after: TreeView, blobs: map<string, Bytes>)
    requires after.Valid()
    requires forall d :: d in s.dirList ==> d in before.walkDirs || d in c.dirsRemoved
    requires forall f :: f in s.fileList ==> f in s.fileInfo
    requires forall f :: f in s.fileList && f !in c.filesRemoved && f !in c.filesModified ==>
      && f in before.walkFiles && f !in c.filesAdded && f in before.stat && f in before.content
      && (before.stat[f] == s.fileInfo[f].stat
          || (s.fileInfo[f].id in blobs && before.content[f] == blobs[s.fileInfo[f].id]))
    requires Applied(c, s, blobs, before, after)
    ensures SnapshotPresent(s, c, after, blobs)
  {
    forall f | f in s.fileList && UnderNone(f, c.dirsAdded)
      ensures && f in after.walkFiles && f in s.fileInfo && f in after.content && f in after.stat
              && ((s.fileInfo[f].id in blobs && after.content[f] == blobs[s.fileInfo[f].id])
                  || after.stat[f] == s.fileInfo[f].stat)
    {
      if f !in c.filesRemoved && f !in c.filesModified {
        assert f in before.walkFiles && f !in c.filesAdded;
      }
    }
  }

  lemma CheckoutSparesMetadata(c: Changes, s: Snapshot, before: TreeView, after: TreeView, blobs: map<string, Bytes>)
    requires forall a :: a in c.dirsAdded ==> !Within(a, BakDir)
    requires forall f :: f in c.filesAdded || f in c.filesRemoved || f in c.filesModified ==> !Under(f, BakDir)
    requires Applied(c, s, blobs, before, after)
    ensures MetadataKept(before, after)
  {
    forall d | d in before.walkDirs && Within(d, BakDir)
      ensures d in after.walkDirs
    {
      forall a | a in c.dirsAdded
        ensures !Within(d, a)
      {
        if Within(d, a) {
          MetadataNested(d, a);
        }
      }
    }
    forall f | f in before.walkFiles && Under(f, BakDir)
      ensures && f in after.walkFiles && f in before.content && f in after.content && f in before.stat && f in after.stat
              && after.content[f] == before.content[f] && after.stat[f] == before.stat[f]
    {
      forall a | a in c.dirsAdded
        ensures !Under(f, a)
      {
        if Under(f, a) {
          MetadataNested(f, a);
        }
      }
    }
  }

  /** lock's loop: the blob of each file's record in s is deleted if present. */
  method PruneFiles(store: Store, s: Snapshot, files: seq<Path>)
    requires forall f :: f in files ==> f in s.fileInfo
    modifies store`blobs
    ensures store.blobs == old(store.blobs) - IdsOf(files, s)
    ensures old(store.Deduplicated()) ==> store.Deduplicated()
  {
    var i := 0;
    while i < |files|
      invariant i <= |files|
      invariant store.blobs == old(store.blobs) - IdsOf(files[..i], s)
      invariant old(store.Deduplicated()) ==> store.Deduplicated()
    {
      assert IdsOf(files[..i + 1], s) == IdsOf(files[..i], s) + {s.fileInfo[files[i]].id} by {
        assert files[..i + 1] == files[..i] + [files[i]];
      }
      store.Remove(s.fileInfo[files[i]].id);
      i := i + 1;
    }
    assert files[..i] == files;
  }

  /**
    unlock's loop: each file whose record's blob is missing is copied back
    under that id. Present blobs are kept, and each restored blob holds the
    bytes of a listed file recorded under its id.
   */
  method RestoreFiles(store: Store, s: Snapshot, view: TreeView, files: seq<Path>)
    requires forall f :: f in files ==> f in s.fileInfo && f in view.content
    modifies store`blobs
    ensures forall id :: id in old(store.blobs) ==> id in store.blobs && store.blobs[id] == old(store.blobs)[id]
    ensures forall f :: f in files ==> s.fileInfo[f].id in store.blobs
    ensures forall id :: id in store.blobs && id !in old(store.blobs) ==>
      CopiedFromFirst(files, |files|, s.fileInfo, view.content, id, store.blobs[id])
  {
    var i := 0;
    while i < |files|
      invariant i <= |files|
      invariant forall id :: id in old(store.blobs) ==> id in store.blobs && store.blobs[id] == old(store.blobs)[id]
      invariant forall k :: 0 <= k < i ==> s.fileInfo[files[k]].id in store.blobs
      invariant forall id :: id in store.blobs && id !in old(store.blobs) ==>
        CopiedFromFirst(files, i, s.fileInfo, view.content, id, store.blobs[id])
    {
      var f := files[i];
      var id := s.fileInfo[f].id;
      if id !in store.blobs {
        ghost var before := store.blobs;
        store.Restore(id, view.content[f]);
        CopyFirst(files, i, s.fileInfo, view.content, id, old(store.blobs), before, store.blobs);
      } else {
        CopyNone(files, i, s.fileInfo, view.content, old(store.blobs), store.blobs);
      }
      i := i + 1;
    }
    assert forall f :: f in files ==> exists k :: 0 <= k < |files| && files[k] == f;
  }

  /** Copying files[i]'s bytes under its id, missing until now, keeps every new blob first-copied. */
  lemma CopyFirst(files: seq<Path>, i: nat, info: map<Path, FileRecord>, content: map<Path, Bytes>, id: string,
                  blobs0: map<string, Bytes>, blobs1: map<string, Bytes>, blobs2: map<string, Bytes>)
    requires i < |files| && files[i] in info && files[i] in content && info[files[i]].id == id
    requires forall k :: 0 <= k < |files| ==> files[k] in info
    requires forall k :: 0 <= k < i ==> info[files[k]].id in blobs1
    requires id !in blobs1 && blobs2 == blobs1[id := content[files[i]]]
    requires forall x :: x in blobs1 && x !in blobs0 ==> CopiedFromFirst(files, i, info, content, x, blobs1[x])
    ensures forall k :: 0 <= k < i + 1 ==> info[files[k]].id in blobs2
    ensures forall x :: x in blobs2 && x !in blobs0 ==> CopiedFromFirst(files, i + 1, info, content, x, blobs2[x])
  {
    forall x | x in blobs2 && x !in blobs0
      ensures CopiedFromFirst(files, i + 1, info, content, x, blobs2[x])
    {
      if x == id {
        assert forall j :: 0 <= j < i ==> info[files[j]].id != id;
        assert 0 <= i < i + 1 && files[i] in info && files[i] in content && info[files[i]].id == x && blobs2[x] == content[files[i]];
      } else {
        var k :| 0 <= k < i && k < |files| && files[k] in info && files[k] in content
          && info[files[k]].id == x && blobs1[x] == content[files[k]]
          && forall j :: 0 <= j < k ==> files[j] in info && info[files[j]].id != x;
        assert 0 <= k < i + 1;
      }
    }
  }

  /** Skipping files[i] because its id has a blob keeps every new blob first-copied. */
  lemma CopyNone(files: seq<Path>, i: nat, info: map<Path, FileRecord>, content: map<Path, Bytes>,
                 blobs0: map<string, Bytes>, blobs1: map<string, Bytes>)
    requires i < |files| && forall k :: 0 <= k < |files| ==> files[k] in info
    requires info[files[i]].id in blobs1
    requires forall k :: 0 <= k < i ==> info[files[k]].id in blobs1
    requires forall x :: x in blobs1 && x !in blobs0 ==> CopiedFromFirst(files, i, info, content, x, blobs1[x])
    ensures forall k :: 0 <= k < i + 1 ==> info[files[k]].id in blobs1
    ensures forall x :: x in blobs1 && x !in blobs0 ==> CopiedFromFirst(files, i + 1, info, content, x, blobs1[x])
  {
    forall x | x in blobs1 && x !in blobs0
      ensures CopiedFromFirst(files, i + 1, info, content, x, blobs1[x])
    {
      var k :| 0 <= k < i && k < |files| && files[k] in info && files[k] in content
        && info[files[k]].id == x && blobs1[x] == content[files[k]]
        && forall j :: 0 <= j < k ==> files[j] in info && info[files[j]].id != x;
      assert 0 <= k < i + 1;
    }
  }
}
