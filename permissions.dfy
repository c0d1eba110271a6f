/**
  The permission calls the engine issues. The access-control library is
  foreign; the model records each call (which path, which access) in the
  order the engine makes it, and proves that unlocking grants full access
  again to everything locking restricted.
 */
module Permissions {
  import opened Paths

  /** The repository root itself, or an entry beneath it. */
  datatype Target = Root | Entry(path: Path)

  /** GENERIC_ALL for the owning user, or GENERIC_READ | GENERIC_EXECUTE for "Everyone". */
  datatype Access = FullControl | ReadExecute

  datatype AclCall = AclCall(target: Target, access: Access)

  function Reverse<T(!new)>(s: seq<T>): (r: seq<T>)
    ensures |r| == |s| && forall i :: 0 <= i < |s| ==> r[i] == s[|s| - 1 - i]
    ensures forall x :: x in r <==> x in s
  {
    if s == [] then [] else Reverse(s[1..]) + [s[0]]
  }

  /** One call per path, in the given order. */
  function Calls(ps: seq<Path>, access: Access): (r: seq<AclCall>)
    ensures |r| == |ps| && forall i :: 0 <= i < |ps| ==> r[i] == AclCall(Entry(ps[i]), access)
    ensures forall c :: c in r <==> c.target.Entry? && c.target.path in ps && c.access == access
  {
    if ps == [] then [] else [AclCall(Entry(ps[0]), access)] + Calls(ps[1..], access)
  }

  /**
    grant_full_permissions: the root, then every directory, then every file,
    the metadata directory included (get_files with ignore off).
   */
  function GrantCalls(walkDirs: seq<Path>, walkFiles: seq<Path>): (r: seq<AclCall>)
    ensures r != [] && r[0] == AclCall(Root, FullControl)
    ensures forall c :: c in r ==> c.access == FullControl
    ensures forall p :: AclCall(Entry(p), FullControl) in r <==> p in walkDirs || p in walkFiles
  {
    var all := GetFiles(walkDirs, walkFiles, false);
    [AclCall(Root, FullControl)] + Calls(all.dirs, FullControl) + Calls(all.files, FullControl)
  }

  /**
    restrict_permissions: bottom-up over the tracked entries, files in
    reverse walk order, then directories in reverse walk order, then the root.
   */
  function RestrictCalls(walkDirs: seq<Path>, walkFiles: seq<Path>): (r: seq<AclCall>)
    ensures r != [] && r[|r| - 1] == AclCall(Root, ReadExecute)
    ensures forall c :: c in r ==> c.access == ReadExecute
    ensures forall p :: AclCall(Entry(p), ReadExecute) in r <==>
      (p in walkDirs && !Within(p, BakDir)) || (p in walkFiles && !Under(p, BakDir))
  {
    var tracked := GetFiles(walkDirs, walkFiles, true);
    Calls(Reverse(tracked.files), ReadExecute) + Calls(Reverse(tracked.dirs), ReadExecute)
      + [AclCall(Root, ReadExecute)]
  }

  /**
    Every path unlock's grant touches includes every path lock's restriction
    touched, on the same walk: the restriction is fully lifted. Restriction
    only ever asks for read and execute access.
   */
  lemma GrantCoversRestrict(walkDirs: seq<Path>, walkFiles: seq<Path>)
    ensures forall c :: c in RestrictCalls(walkDirs, walkFiles) ==>
      c.access == ReadExecute && AclCall(c.target, FullControl) in GrantCalls(walkDirs, walkFiles)
  {
  }
}
