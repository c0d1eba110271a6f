/**
  The content-addressed blob store (the `files` directory of the metadata
  directory, plus store_info's id registry and hash index).

  add_file hashes the bytes, and for each id in that hash's bucket compares
  the stored blob byte for byte; the first identical blob's id is reused.
  Otherwise a fresh random id is drawn, the bytes are copied in under it,
  and the id is appended to the registry and to the bucket. The hash only
  selects candidates: an id is never reused on hash equality alone.
 */
module ContentStore {
  import opened Paths
  import opened Records
  import opened Ids

  /** The ids of a hash bucket, or none when the hash was never seen. */
  function Bucket(hashes: map<Digest, seq<string>>, h: Digest): seq<string> {
    if h in hashes then hashes[h] else []
  }

  /** The first id of the bucket whose stored blob holds exactly these bytes. */
  function Lookup(bucket: seq<string>, blobs: map<string, Bytes>, data: Bytes): (r: Option<string>)
    requires forall id :: id in bucket ==> id in blobs
    ensures r.Some? ==> r.value in bucket && blobs[r.value] == data
    ensures r.None? <==> forall id :: id in bucket ==> blobs[id] != data
    ensures r.Some? ==>
      exists i :: 0 <= i < |bucket| && bucket[i] == r.value && forall j :: 0 <= j < i ==> blobs[bucket[j]] != data
  {
    if bucket == [] then None
    else if blobs[bucket[0]] == data then Some(bucket[0])
    else Lookup(bucket[1..], blobs, data)
  }

  /** Every blob's id sits in the bucket of its content's digest, so add_file can find it again. */
  ghost predicate Indexed(hash: Bytes -> Digest, blobs: map<string, Bytes>, hashes: map<Digest, seq<string>>) {
    forall id :: id in blobs ==> id in Bucket(hashes, hash(blobs[id]))
  }

  /** No two blobs hold the same bytes. */
  ghost predicate Distinct(blobs: map<string, Bytes>) {
    forall a, b :: a in blobs && b in blobs && blobs[a] == blobs[b] ==> a == b
  }

  /**
    In an indexed store, the bucket scan misses exactly when no blob at all
    holds the bytes: the hash narrows the search without losing a duplicate.
   */
  lemma BucketScanComplete(hash: Bytes -> Digest, blobs: map<string, Bytes>, hashes: map<Digest, seq<string>>, data: Bytes)
    requires Indexed(hash, blobs, hashes)
    requires forall id :: id in Bucket(hashes, hash(data)) ==> id in blobs
    ensures Lookup(Bucket(hashes, hash(data)), blobs, data).None? <==> forall id :: id in blobs ==> blobs[id] != data
  {
    if Lookup(Bucket(hashes, hash(data)), blobs, data).None? {
      forall id | id in blobs
        ensures blobs[id] != data
      {
        assert id in Bucket(hashes, hash(blobs[id]));
      }
    }
  }

  /**
    Storing bytes no blob holds yet, under a new id appended to their
    digest's bucket, keeps the store indexed and free of duplicates.
   */
  lemma AddingKeepsDistinct(hash: Bytes -> Digest, blobs: map<string, Bytes>, hashes: map<Digest, seq<string>>,
                            id: string, data: Bytes)
    requires Indexed(hash, blobs, hashes) && Distinct(blobs)
    requires id !in blobs && forall other :: other in blobs ==> blobs[other] != data
    ensures Indexed(hash, blobs[id := data], hashes[hash(data) := Bucket(hashes, hash(data)) + [id]])
    ensures Distinct(blobs[id := data])
  {
    var blobs', hashes' := blobs[id := data], hashes[hash(data) := Bucket(hashes, hash(data)) + [id]];
    forall x | x in blobs'
      ensures x in Bucket(hashes', hash(blobs'[x]))
    {
      if x != id {
        assert x in Bucket(hashes, hash(blobs[x]));
      }
    }
  }

  /** Deleting blobs keeps the store indexed and free of duplicates. */
  lemma RemovingKeepsDistinct(hash: Bytes -> Digest, blobs: map<string, Bytes>, hashes: map<Digest, seq<string>>, gone: set<string>)
    requires Indexed(hash, blobs, hashes) && Distinct(blobs)
    ensures Indexed(hash, blobs - gone, hashes) && Distinct(blobs - gone)
  {
  }

  class Store {
    /** SHA-512 of a file's bytes, hex-encoded; left uninterpreted. */
    const hash: Bytes -> Digest
    /** The blobs present in the store directory, by content id. */
    var blobs: map<string, Bytes>
    /** store_info['file_ids']: every content id ever issued. */
    var fileIds: seq<string>
    /** store_info['hashes']: digest to the ids sharing that digest. */
    var hashes: map<Digest, seq<string>>

    /**
      The registry lists each id once and remembers every id that has a blob
      or sits in a bucket; a pruned blob (lock mode) keeps its id registered.
     */
    ghost predicate Valid()
      reads this
    {
      && NoDup(fileIds)
      && (forall id :: id in blobs ==> id in fileIds)
      && (forall h, id :: h in hashes && id in hashes[h] ==> id in fileIds)
    }

    /** Byte-identical content is stored at most once, and every blob can be found through its digest. */
    ghost predicate Deduplicated()
      reads this
    {
      Indexed(hash, blobs, hashes) && Distinct(blobs)
    }

    /** Every candidate for this digest can be compared (filecmp needs the blob file). */
    predicate BucketResolves(h: Digest)
      reads this
    {
      forall id :: id in Bucket(hashes, h) ==> id in blobs
    }

    constructor (hash: Bytes -> Digest)
      ensures Valid() && Deduplicated()
      ensures this.hash == hash && blobs == map[] && fileIds == [] && hashes == map[]
    {
      this.hash := hash;
      blobs, fileIds, hashes := map[], [], map[];
    }

    /** The bucket scan of add_file: the first byte-identical candidate, if any. */
    method FindDuplicate(data: Bytes) returns (r: Option<string>)
      requires BucketResolves(hash(data))
      ensures r == Lookup(Bucket(hashes, hash(data)), blobs, data)
    {
      var bucket := Bucket(hashes, hash(data));
      var i := 0;
      while i < |bucket|
        invariant i <= |bucket|
        invariant Lookup(bucket, blobs, data) == Lookup(bucket[i..], blobs, data)
      {
        if blobs[bucket[i]] == data {
          return Some(bucket[i]);
        }
        i := i + 1;
      }
      return None;
    }

    /**
      add_file. The returned id always names a blob holding exactly `data`.
      An id from the digest's bucket is returned only when its blob is
      byte-identical, and then nothing changes; otherwise the id is fresh and
      well-formed, and the blob, the registry and the bucket each gain
      exactly that id. A deduplicated store stays deduplicated, so the
      returned id is then the only one holding these bytes.
     */
    method AddFile(data: Bytes) returns (id: string)
      requires Valid()
      requires BucketResolves(hash(data))
      requires |fileIds| < IdSpace(ContentIdLength)
      modifies this
      ensures Valid()
      ensures id in blobs && blobs[id] == data
      ensures Lookup(old(Bucket(hashes, hash(data))), old(blobs), data).Some? ==>
        && id == Lookup(old(Bucket(hashes, hash(data))), old(blobs), data).value
        && blobs == old(blobs) && fileIds == old(fileIds) && hashes == old(hashes)
      ensures Lookup(old(Bucket(hashes, hash(data))), old(blobs), data).None? ==>
        && ValidId(id, ContentIdLength) && id !in old(fileIds)
        && blobs == old(blobs)[id := data]
        && fileIds == old(fileIds) + [id]
        && hashes == old(hashes)[hash(data) := old(Bucket(hashes, hash(data))) + [id]]
      ensures old(Deduplicated()) ==> Deduplicated() && forall other :: other in blobs && blobs[other] == data ==> other == id
    {
      var found := FindDuplicate(data);
      if found.Some? {
        return found.value;
      }
      id := StoreFresh(data);
    }

    /** add_file when no candidate matches: a fresh id, the blob, and the registry and bucket entries. */
    method StoreFresh(data: Bytes) returns (id: string)
      requires Valid()
      requires BucketResolves(hash(data)) && Lookup(Bucket(hashes, hash(data)), blobs, data).None?
      requires |fileIds| < IdSpace(ContentIdLength)
      modifies this
      ensures Valid()
      ensures ValidId(id, ContentIdLength) && id !in old(fileIds)
      ensures blobs == old(blobs)[id := data]
      ensures fileIds == old(fileIds) + [id]
      ensures hashes == old(hashes)[hash(data) := old(Bucket(hashes, hash(data))) + [id]]
      ensures old(Deduplicated()) ==> Deduplicated()
    {
      var digest := hash(data);
      ghost var blobs0, hashes0 := blobs, hashes;
      ghost var dedup := Deduplicated();
      var bucket := if digest in hashes then hashes[digest] else [];
      FreshIdExists(fileIds, ContentIdLength);
      id :| ValidId(id, ContentIdLength) && id !in fileIds;
      if dedup {
        BucketScanComplete(hash, blobs0, hashes0, data);
        AddingKeepsDistinct(hash, blobs0, hashes0, id, data);
      }
      blobs := blobs[id := data];
      fileIds := fileIds + [id];
      hashes := hashes[digest := bucket + [id]];
    }

    /** Deletes a blob file; the registry and the buckets still hold its id. */
    method Remove(id: string)
      modifies this`blobs
      ensures blobs == old(blobs) - {id}
      ensures old(Deduplicated()) ==> Deduplicated()
    {
      if Deduplicated() {
        RemovingKeepsDistinct(hash, blobs, hashes, {id});
      }
      blobs := blobs - {id};
    }

    /** Copies a live file's bytes back in under an existing id. */
    method Restore(id: string, data: Bytes)
      modifies this`blobs
      ensures blobs == old(blobs)[id := data]
    {
      blobs := blobs[id := data];
    }
  }
}
