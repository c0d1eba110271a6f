# Snapshot and content-store engine of `backup.py`, in Dafny

`Python/backup.py` is a backup tool for a working directory. It keeps a
metadata directory `.bak` with three parts:

- a content-addressed store of file blobs (`files/`, `store_info.json`);
- an index of snapshots (`snapshots.json`);
- a lock sentinel.

It offers `init`, `snapshot`, `checkout`, `lock` and `unlock`.
Change detection (`get_changes`) compares the live tree with a snapshot:

- an equal `os.stat` tuple means unchanged;
- a different size means modified;
- otherwise the bytes are compared.

This project models that engine and proves what it promises.

| module (file) | models |
|---|---|
| `Ids` (ids.dfy) | the random 64- and 8-character ids, drawn until fresh; proves a fresh id exists whenever the registry is smaller than the id space |
| `Paths` (paths.dfy) | paths, list comprehensions, and `get_files` with its `.bak` exclusion |
| `Records` (records.dfy) | fingerprints (stat tuples), file records, snapshots, and the walked tree as a value |
| `ChangeDetector` (changes.dfy) | `get_changes` as a function, and its `files_modified` loop as a method proved equal to it |
| `ContentStore` (store.dfy) | the store as a class: `add_file` with hash buckets, byte comparison and fresh ids, and blob removal and restoration |
| `WorkingTree` (tree.dfy) | the working tree as a class, changed by checkout's filesystem calls (`rmtree`, `makedirs`, `remove`, `copy`) in checkout's five loops |
| `Permissions` (permissions.dfy) | the access-control calls of `grant_full_permissions` and `restrict_permissions`, as a call log |
| `Engine` (engine.dfy) | the `Backup` class: index, current id, lock flag and call log, with `init`, `snapshot`, `checkout`, `lock` and `unlock` as a constructor and methods |

### Backup.Valid

The engine's invariant is `Backup.Valid`. It holds after `init` and is kept by every operation.

- The store's registry lists each id once.
- The index is consistent: ids match their snapshots, no id is repeated, every id is well-formed, and each snapshot lists each entry once.
- Nothing under `.bak` is recorded, and every recorded file has a registered blob id.
- While unlocked, every registered id has its blob.
- While locked, every live file belongs to the current snapshot, and a blob is missing only when it is the blob of such a file.

Beside it, `Store.Deduplicated` states the store's promise that identical content is stored once:
- no two blobs hold the same bytes;
- every blob's id is in the bucket of its content's digest, so `add_file` finds it.

`init` establishes it, and `snapshot` and `lock` keep it; `checkout` does not touch the store. `unlock` can break it (see "Left out").

### The `locked()` query

`locked()` is the `Backup.locked` field. The sentinel exists exactly when that field is true.

### Quirks modelled as written

- **`init` writes the string `"None"` as the current id.** `get_curr_snapshot` compares it with `None`, so its search loop falls through and it returns nothing. `GetCurrSnapshot` returns `None` whenever no snapshot carries the current id.
- **`init` on a tree with nothing tracked creates no snapshot.** Its closing `snapshot` call sees no change and is refused. The comment at 287 announces an initial snapshot, but on such a tree the call at 288 takes none. The model follows the code: `Backup.Init` ensures that no snapshot exists in that case.
- **`checkout` guards its deletions with existence checks.** `rmtree` of an added directory may already have removed entries that are listed later. The model keeps both guards (`RemoveIfPresent`, `RemoveEach`).

## Model

| member | source | states |
|---|---|---|
| Ids.FreshIdExists | Python/backup.py:137-140 | when the registry holds fewer ids than there are well-formed ids of length k, some well-formed id of length k is not registered, so the redraw loop can stop (also used for 393-395) |
| Ids.Encode | Python/backup.py:137 | every k-digit base-62 spelling of a number below 62^k is a well-formed id of length k |
| Ids.EncodeInjective | Python/backup.py:137 | distinct numbers spell distinct ids |
| Ids.SpelledSize | Python/backup.py:137-140 | the spellings of 0..n-1 are n distinct ids |
| Paths.MetadataNested | Python/backup.py:87-98 | a directory that contains an entry of `.bak` is `.bak` or lies within it |
| Paths.Filter | Python/backup.py:100-101 | the comprehension keeps exactly the elements satisfying the condition, introduces no repeats, and is no longer than its input |
| Paths.Minus | Python/backup.py:214-220 | `[x for x in a if x not in b]` holds exactly the elements of a absent from b, without repeats when a has none |
| Paths.GetFiles | Python/backup.py:61-103 | without `ignore`, the raw walk; with `ignore`, exactly the walked directories outside `.bak` and the walked files not beneath it; a walk without repeats gives lists without repeats |
| ChangeDetector.Modified | Python/backup.py:221-250 | a path is in the accumulated `files_modified` iff it is a live file, was not added, and is classified as modified (different stat, and a different size or different bytes) |
| ChangeDetector.IsModified | Python/backup.py:227-250 | an unchanged fingerprint is never modified; a different size is always modified; otherwise modified iff the bytes differ from the recorded blob |
| ChangeDetector.GetChanges | Python/backup.py:171-210 | `changed` holds iff some list is non-empty, so when it is false every list is empty (252-255); with no baseline, every tracked entry is added and nothing is removed or modified, and `changed` holds iff something is tracked |
| ChangeDetector.ChangesAgainstBaseline | Python/backup.py:213-250 | against a snapshot, added and removed directories and files are exactly the two list differences; a file is modified iff it is live, recorded and classified so; an equal stat is never modified, and a different size is always modified; a baseline without repeated directories gives no repeated removals |
| ChangeDetector.UpToDateRecordHasNoChanges | Python/backup.py:252-255 | a snapshot that records exactly the tracked lists and the live stats shows no change, which is why `snapshot` right after `snapshot` is refused (355-358) |
| ChangeDetector.ChangesAccountForBaseline | Python/backup.py:213-250 | every recorded directory is still walked or is listed as removed; every recorded file is listed as removed or modified, or is live, not added, and has its recorded stat or its blob's bytes |
| ChangeDetector.ChangesOutsideMetadata | Python/backup.py:213-220 | against a snapshot with nothing under `.bak`, no added, removed or modified entry lies under `.bak` |
| ChangeDetector.DetectChanges | Python/backup.py:171-255 | the step-by-step computation returns exactly `GetChanges` |
| ChangeDetector.ModifiedFiles | Python/backup.py:221-250 | the loop over the live files returns exactly `Modified` |
| ContentStore.Lookup | Python/backup.py:128-132 | an id is returned only if its blob is byte-identical to the data, and it is the first such id in the bucket; nothing is returned iff no blob in the bucket holds those bytes |
| ContentStore.BucketScanComplete | Python/backup.py:128-132 | in a store where every blob sits in its digest's bucket, the bucket scan finds nothing exactly when no blob at all holds the bytes, so the hash never hides a duplicate |
| ContentStore.AddingKeepsDistinct | Python/backup.py:137-144 | storing bytes no blob holds under a new id appended to their digest's bucket keeps every blob findable and no two blobs equal |
| ContentStore.RemovingKeepsDistinct | Python/backup.py:566-568 | deleting blobs keeps every remaining blob findable and no two blobs equal |
| ContentStore.Store.FindDuplicate | Python/backup.py:129-132 | the bucket scan returns exactly `Lookup` of the hash's bucket |
| ContentStore.Store.AddFile | Python/backup.py:106-146 | the returned id always names a blob holding exactly the file's bytes; when a blob in the digest's bucket holds them, the first such id is returned and nothing changes (128-132); otherwise the id is well-formed and unregistered, and the blobs, the registry and the bucket each gain exactly that id (137-144); a deduplicated store stays deduplicated, and then no other blob holds these bytes |
| ContentStore.Store.StoreFresh | Python/backup.py:134-144 | with no byte-identical bucket candidate, a fresh well-formed id is stored with the bytes, appended to the registry and to the digest's bucket, and deduplication is kept |
| ContentStore.Store.Remove | Python/backup.py:566-568 | the blob is deleted, nothing else changes, and deduplication is kept |
| ContentStore.Store.Restore | Python/backup.py:589-591 | the blob is written under that id and nothing else changes |
| ContentStore.Store.constructor | Python/backup.py:281-282 | an empty registry, no buckets and no blobs; trivially deduplicated |
| WorkingTree.WorkTree.RemoveTree | Python/backup.py:466 | `rmtree(d)` leaves exactly the directories not within d and the files not beneath d, in walk order, with their bytes and stats |
| WorkingTree.WorkTree.MakeDirs | Python/backup.py:468 | `makedirs(d)` appends d to the directories |
| WorkingTree.WorkTree.RemoveFile | Python/backup.py:473 | `remove(f)` drops exactly f from the files |
| WorkingTree.WorkTree.CopyIn | Python/backup.py:475-477 | `copy` gives f the blob's bytes and a fingerprint of that size; f is added if it was missing; nothing else changes |
| WorkingTree.WorkTree.RemoveIfPresent | Python/backup.py:465-466 | d is gone; no entry appears; every directory outside d and every file outside d survives with its bytes and stat |
| WorkingTree.WorkTree.RemoveTrees | Python/backup.py:464-466 | no listed directory remains; no entry appears; every entry outside all listed subtrees survives with its bytes and stat |
| WorkingTree.WorkTree.MakeEachDir | Python/backup.py:467-468 | the removed directories are appended in order |
| WorkingTree.WorkTree.RemoveEach | Python/backup.py:471-473 | a file remains iff it was present and is not listed |
| WorkingTree.CopyStep | Python/backup.py:474-477 | one copy extends the copied prefix by one file |
| WorkingTree.WorkTree.CopyEach | Python/backup.py:474-477 | every listed file holds its recorded blob's bytes; directories are unchanged; no file vanishes or appears outside the list; every other file keeps its bytes and stat |
| WorkingTree.WorkTree.ApplyChanges | Python/backup.py:463-477 | the five loops in order: added subtrees and added files are gone, removed directories exist, removed and modified files hold their blobs' bytes, and every other entry is as it was |
| Permissions.Reverse | Python/backup.py:521-522 | `[::-1]`: same length, element i is element n-1-i |
| Permissions.Calls | Python/backup.py:503-514 | one call per path, in order, each with the given access |
| Permissions.GrantCalls | Python/backup.py:487-514 | the root first, then one full-control call per walked directory and file, `.bak` included; every call grants full control |
| Permissions.RestrictCalls | Python/backup.py:517-546 | one read-and-execute call per tracked directory and file, never for an entry of `.bak`, and the root last; every call asks for read and execute only |
| Permissions.GrantCoversRestrict | Python/backup.py:487-546 | every call `restrict_permissions` makes asks for read and execute only, and `grant_full_permissions` on the same walk grants full control to that target |
| Engine.FindSnapshot | Python/backup.py:166-168 | the search finds a snapshot with the id, and finds none iff no snapshot carries it |
| Engine.GetCurrSnapshot | Python/backup.py:149-168 | a snapshot is returned iff the current id is set and some snapshot carries it; the result is that snapshot |
| Engine.Backup.Current | Python/backup.py:149-168 | the current snapshot, when there is one, is in the index and carries the current id; with no current id there is none |
| Engine.Backup.Pending | Python/backup.py:195-210 | the changes `status` and the guards at 353-358, 445 and 557 compute: `changed` iff some list is non-empty; with no current snapshot every tracked entry counts as added |
| Engine.Backup.Init | Python/backup.py:258-288 | full permissions over the whole walk, then the first snapshot. On a tree with nothing tracked that snapshot is refused: no snapshot, the current id is the string `"None"`, no current snapshot, and an empty store, registry and hash index (279-282). Otherwise one current snapshot that captures the tracked tree with every file counted as added: its file records are keyed by exactly the tracked files, each with its live stat, and each record names a blob holding that file's bytes, and every registered or stored id is some tracked file's record id. The hash index holds buckets only for digests of tracked files' bytes, and the registry never repeats an id. In both cases the invariant holds, the store is deduplicated, the backup is unlocked, and nothing is pending |
| Engine.Backup.FirstSnapshot | Python/backup.py:288 | from the empty index and store: with nothing tracked, nothing changes; otherwise one snapshot made current that captures the tree against no baseline, with file records for exactly the tracked files, and the store holds only the tracked files' blobs, with hash buckets only for their digests; deduplication holds |
| Engine.Backup.Snapshot | Python/backup.py:340-416 | Done iff unlocked with pending changes; refused when locked (349-351) or with nothing changed (355-358), changing nothing. On Done exactly one snapshot with an unregistered well-formed id is appended, its id recorded and made current (393-411). It records the tracked lists, and file records keyed by exactly the tracked files with their live stats (372-390); it stores the bytes of added and modified files, and has unchanged files inherit their id from the previous current snapshot (373-379). Existing blobs are kept; every new id is the record id of an added or modified file; the registry grows by at most their number. Existing hash buckets only grow at their ends, and a bucket changes or appears only for the digest of an added or modified file's bytes. Deduplication is kept, and in a deduplicated store changed files with equal bytes share one id (129-132, 144). Afterwards nothing is pending |
| Engine.Backup.PendingFacts | Python/backup.py:372-379 | every added or modified file is live, and every other live file has a record in the current snapshot under a registered id |
| Engine.Backup.TakeSnapshot | Python/backup.py:361-411 | the appended snapshot has a fresh well-formed id, the given or default tag, the time, and the captured tree, with file records for exactly the live tracked files; the store grows only by the changed files' blobs, by at most their number, and stays deduplicated; only the buckets of those files' digests grow; afterwards nothing is pending |
| Engine.Backup.RecordLive | Python/backup.py:373-391 | file_info covers exactly the live files with their stats, stored bytes for changed files and inherited ids otherwise; the store grows only by the changed files' blobs, by at most their number, and stays deduplicated; only the buckets of those files' digests grow; the invariant is kept |
| Engine.Backup.Commit | Python/backup.py:409-411 | appending a snapshot of exactly the live tree keeps the invariant and leaves nothing pending |
| Engine.Backup.Append | Python/backup.py:409-411 | the snapshot and its id are appended and become current; the index stays consistent |
| Engine.RecordStep | Python/backup.py:373-391 | recording one more file extends the recorded prefix, however the store grew meanwhile |
| Engine.GrowStep | Python/backup.py:373-379 | recording one more file keeps every new id and blob accounted to a changed file's record |
| Engine.ChangedCountBound | Python/backup.py:374-377 | a file list without repeats has at most as many changed entries as the changed list is long, which bounds the ids one snapshot registers |
| Engine.BucketStep | Python/backup.py:137-144 | one `add_file` on a changed file keeps the hash index grown only at the ends of changed files' buckets |
| Engine.OtherBucketsKept | Python/backup.py:137-144 | after recording, the bucket of a digest that no changed file's bytes have is as it was |
| Engine.EqualBytesShareId | Python/backup.py:129-132 | in a store without duplicate blobs, a snapshot's changed files with equal bytes are recorded under one id |
| Engine.RecordFiles | Python/backup.py:373-391 | one record per listed file; the store stays complete; every new id or blob is the record id of a changed file; the registry grows by at most the number of changed files; existing buckets keep their ids as a prefix, and only the buckets of changed files' digests change; deduplication is kept |
| Engine.RecordNext | Python/backup.py:374-390 | one pass of the file_info loop: the recorded prefix grows by one file, the registry stays complete, buckets grow only for changed files' digests, and deduplication is kept |
| Engine.RecordFile | Python/backup.py:375-379 | an unchanged file inherits its id and leaves the store untouched; a changed file goes through `add_file`: its id's blob holds its bytes, and either the registry and hash index are unchanged, or the registry gains exactly that new id and the bucket of the file's digest gains it at its end, nothing else in the index changing; the stat is the live one; deduplication is kept |
| Engine.Backup.Checkout | Python/backup.py:419-484 | Done iff unlocked, the id was issued, and either the user confirms or nothing is pending; refused when locked (428-430), for an unknown id (436-438) and when declined (446-451), changing nothing; on Done the current id is the target (458, 480), every tracked entry belongs to the snapshot, every recorded entry outside removed subtrees is present with its blob's bytes or its recorded stat, every removed or modified file is present again holding its blob's bytes (474-477), `.bak` is untouched, every walked file no change list names and outside the added directories keeps its bytes and stat (463-477), and when the tree already matched only the current id changes (457-461) |
| Engine.Backup.DetectPending | Python/backup.py:445 | returns exactly the pending changes |
| Engine.Backup.Find | Python/backup.py:440-442 | an issued id names a snapshot in the index, the one the search finds |
| Engine.Backup.SwitchTo | Python/backup.py:453-482 | the tree is brought back to the snapshot, which becomes current: every file the diff lists as removed or modified holds its blob's bytes again; walked files that the diff against the snapshot does not name, outside its added directories, keep their bytes and stats; if nothing differed the tree is untouched |
| Engine.Backup.ApplySnapshot | Python/backup.py:457-477 | the five loops run only when something differs, and afterwards the tree holds the snapshot as checkout promises; every removed or modified file holds its blob's bytes; files the changes do not name, outside the added directories, keep their bytes and stats |
| Engine.CheckoutKeepsOnlySnapshot | Python/backup.py:463-477 | after the loops every tracked directory and file belongs to the snapshot |
| Engine.CheckoutRestoresSnapshot | Python/backup.py:463-477 | after the loops every recorded entry outside the removed subtrees is present, each file with its blob's bytes or its recorded stat |
| Engine.CheckoutSparesMetadata | Python/backup.py:463-477 | the loops leave every entry of `.bak` in place, with its bytes and stat |
| Engine.Backup.LiveIsRecorded | Python/backup.py:556-566 | with nothing pending, every live file belongs to the current snapshot, and nothing is tracked when there is none |
| Engine.Backup.Lock | Python/backup.py:549-575 | Done iff unlocked with nothing pending; refused when already locked (552-554) or with pending changes (557-560), changing nothing; on Done the blob of every live file is deleted (563-568), read-only calls are appended (571), the backup is locked (574), and deduplication is kept |
| Engine.Backup.Seal | Python/backup.py:563-575 | the live files' blobs are removed, the restriction calls are appended, the flag is set, the invariant holds locked, and deduplication is kept |
| Engine.PruneFiles | Python/backup.py:565-568 | the loop deletes exactly the blobs recorded for the listed files and keeps deduplication |
| Engine.PruningSeals | Python/backup.py:563-568 | pruning the live files' blobs from a complete store leaves only those ids missing |
| Engine.Backup.Unlock | Python/backup.py:578-597 | refused when not locked (581-583), changing nothing; otherwise unlocked, full-control calls appended (594), every blob kept, and every blob brought back belongs to a pruned id and holds the bytes of the first live file, in walk order, recorded under it (588-591) |
| Engine.Backup.Reopen | Python/backup.py:586-597 | the missing blobs come back from the live files, each with the bytes of the first live file recorded under its id; the grant calls are appended, the flag is cleared, and the store is complete again |
| Engine.RestoreFiles | Python/backup.py:588-591 | the loop keeps present blobs, gives every listed file's id a blob, and each blob it brings back holds the bytes of the first listed file recorded under that id; later files with the same id are skipped |
| Engine.RestoringCompletes | Python/backup.py:586-591 | a sealed store whose live files' blobs are present again is complete, and its new blobs come from pruned ids |
| Engine.CopyFirst | Python/backup.py:588-591 | copying a file whose id has no blob yet keeps every new blob the copy of the first listed file with its id |
| Engine.CopyNone | Python/backup.py:588-590 | skipping a file whose id already has a blob keeps every new blob the copy of the first listed file with its id |
| Engine.UnlockUndoesLock | Python/backup.py:563-591 | when every live file holds its recorded blob's bytes, unlock after lock gives back exactly the store from before lock |

## Left out

- Terminal output, colours, `status`, `log` and the `argparse` dispatch are not modelled. `Backup.Pending` is the changes `status` would print.
- JSON persistence is not modelled: `snapshots.json` and `store_info.json` are the class fields.
- `init`'s existence check, `--force` and the `mkdir` calls are left out. `Backup.Init` takes the walked tree after `.bak` exists.
- SHA-512 is an uninterpreted function. `datetime.now()` is a string parameter.
- `random.choices` is a nondeterministic choice of a fresh, well-formed id. `Store.AddFile`, `Backup.Snapshot` and `Backup.Init` require that the id space is not exhausted; the source would loop forever there.
- `os.stat` tuples are compared only for equality and size. The times are reals that are never computed with. A copied file gets a fingerprint the model leaves free except for its size.
- The walk order of `os.walk` is an input. Only the exclusion of `.bak` is modelled.
- Directories and files are separate lists, so a file and a directory with the same name do not clash.
- `makedirs` creating missing ancestors is not modelled. Nor is the error `makedirs` raises on an existing directory; `MakeEachDir` requires that none exists.
- The files under `.bak` (the blob files, the JSON files and the sentinel) are not tied to the walked tree. Checkout is proved to leave them untouched.
- The store's blob files are a map, and `filecmp`'s cache is not modelled.
- The `input()` confirmation in `checkout` is the `confirm` parameter.
- `grant_full_permissions` and `restrict_permissions` call a Windows library the model cannot see. They are modelled as an appended log of (target, access) calls.
- The Backup invariant rules out source runs that raise. One example: `filecmp` on a missing blob. Another: `unlock` with no current snapshot while files are tracked, which would index `None` (586-589). `lock` never leaves that state behind: with no current snapshot every tracked entry is pending (203-208), so it refuses (557-560).
- Engine.Backup.Checkout: does not promise that nothing is pending afterwards. A restored file gets a fingerprint of its blob's length, and it would be classified unmodified only if its recorded size were that length. The invariant does not tie a record's size to its blob's length. Entries beneath a directory removed as added are the second gap (see Engine.SnapshotPresent).
- Engine.SnapshotPresent: entries beneath a directory that checkout removes as added are not claimed present. On a real file system a snapshot never records entries beneath a directory it lacks, but the model's walk lists are not constrained that way.
- Engine.Backup.Unlock: does not promise that the store stays deduplicated. unlock copies each live file's current bytes back under its recorded id (588-591). A file whose bytes changed under an unchanged fingerprint before lock thus puts bytes under an id its digest's bucket does not list, in the source as well.
- Engine.UnlockUndoesLock: assumes the live files hold their recorded blobs' bytes. `lock` checks this only through the stat heuristic of `get_changes`.
- `makecbz.py` is not part of this model.
