/** The checker object: the in-memory integrity database, updated in place by each
    operation. Every method is proved against the matching function of IntegrityModel. */
module Checker {
  import opened Wrappers
  import opened IntegrityModel
  import IntegrityLaws

  class FileIntegrityChecker {
    /** The SHA-256 hex digest of a byte string; fixed for the checker's lifetime. */
    const digest: Bytes -> string
    /** The keys of the "files" dictionary in insertion order. */
    var order: seq<Path>
    /** The "files" dictionary. */
    var files: FileMap

    function Snapshot(): Table
      reads this
    {
      Table(order, files)
    }

    ghost predicate Valid()
      reads this
    {
      Snapshot().Valid()
    }

    /** A checker over the database loaded at start-up (empty on a first run). */
    constructor (digest: Bytes -> string, loaded: Table)
      requires loaded.Valid()
      ensures Valid()
      ensures this.digest == digest && Snapshot() == loaded
    {
      this.digest := digest;
      order := loaded.order;
      files := loaded.files;
    }

    /** Adds or re-baselines `p`; `saveOk` is what persisting the database reports. */
    method AddFile(p: Path, description: string, disk: Disk, now: Timestamp, saveOk: bool) returns (ok: bool)
      requires Valid()
      modifies this
      ensures Valid()
      ensures Snapshot() == AfterAdd(old(Snapshot()), disk, digest, p, description, now)
      ensures ok <==> CalculateFileHash(disk, digest, p).Some? && saveOk
    {
      if !disk.Exists(p) {
        return false;
      }
      var hash := CalculateFileHash(disk, digest, p);
      if hash.None? {
        return false;
      }
      var rec := Record(hash.value, Algorithm, |disk.contents[p]|, now, now, description, 1, Verified, None);
      if p !in files {
        order := order + [p];
      }
      files := files[p := rec];
      ok := saveOk;
    }

    /** Checks `p` against its stored hash. */
    method VerifyFile(p: Path, disk: Disk, now: Timestamp) returns (result: VerifyResult)
      requires Valid()
      modifies this
      ensures Valid() && order == old(order)
      ensures (result, files) == Verify(old(files), disk, digest, p, now)
    {
      if p !in files {
        return NotTracked;
      }
      if !disk.Exists(p) {
        return FileMissing;
      }
      var stored := files[p];
      var current := CalculateFileHash(disk, digest, p);
      if current.None? {
        return HashFailed;
      }
      var checked := stored.(lastChecked := now, checkCount := stored.checkCount + 1);
      if current.value == stored.hash {
        files := files[p := checked.(status := Verified)];
        result := Intact(current.value, now);
      } else {
        files := files[p := checked.(status := Tampered, tamperedDate := Some(now))];
        result := Modified(stored.hash, current.value, now);
      }
    }

    /** Checks every tracked path once, in table order. */
    method VerifyAllFiles(disk: Disk, now: Timestamp) returns (results: seq<(Path, VerifyResult)>)
      requires Valid()
      modifies this
      ensures Valid() && order == old(order)
      ensures (results, files) == VerifyAll(old(Snapshot()), disk, digest, now)
    {
      ghost var start := Snapshot();
      results := [];
      var i := 0;
      while i < |order|
        invariant 0 <= i <= |order| && order == start.order
        invariant Valid() && IntegrityLaws.VerifiedUpTo(start, files, disk, digest, now, i)
        invariant results == VerifyAll(start, disk, digest, now).0[..i]
      {
        var p := order[i];
        IntegrityLaws.VerifyAllStep(start, files, disk, digest, now, i);
        var result := VerifyFile(p, disk, now);
        results := results + [(p, result)];
        i := i + 1;
      }
      IntegrityLaws.VerifyAllDone(start, files, disk, digest, now);
      assert results == VerifyAll(start, disk, digest, now).0;
    }

    /** Stops tracking `p`; `saveOk` is what persisting the database reports. */
    method RemoveFile(p: Path, saveOk: bool) returns (ok: bool)
      requires Valid()
      modifies this
      ensures Valid()
      ensures Snapshot() == AfterRemove(old(Snapshot()), p)
      ensures ok <==> p in old(files) && saveOk
    {
      if p in files {
        order := Without(order, p);
        files := files - {p};
        return saveOk;
      }
      return false;
    }

    /** Imports a database file already read and parsed (None when that failed), merging it
        in or replacing the current table. */
    method ImportDatabase(parsed: Option<Table>, merge: bool, saveOk: bool) returns (ok: bool)
      requires Valid()
      requires parsed.Some? ==> parsed.value.Valid()
      modifies this
      ensures Valid()
      ensures Snapshot() == AfterImport(old(Snapshot()), parsed, merge)
      ensures ok <==> parsed.Some? && saveOk
    {
      if parsed.None? {
        return false;
      }
      var incoming := parsed.value;
      if merge {
        order := order + NewPaths(incoming.order, files);
        files := files + incoming.files;
      } else {
        order := incoming.order;
        files := incoming.files;
      }
      assert Snapshot() == AfterImport(old(Snapshot()), parsed, merge);
      ok := saveOk;
    }

    /** Lists every record, in table order. */
    method ListFiles() returns (entries: seq<Entry>)
      requires Valid()
      ensures |entries| == |order|
      ensures forall i :: 0 <= i < |entries| ==> entries[i] == Describe(order[i], files[order[i]])
      ensures forall p :: p in files <==> exists i :: 0 <= i < |entries| && entries[i].path == p
      ensures forall i, j :: 0 <= i < j < |entries| ==> entries[i].path != entries[j].path
    {
      entries := [];
      var i := 0;
      while i < |order|
        invariant 0 <= i <= |order|
        invariant |entries| == i
        invariant forall k :: 0 <= k < i ==> entries[k] == Describe(order[k], files[order[k]])
      {
        var p := order[i];
        entries := entries + [Describe(p, files[p])];
        i := i + 1;
      }
    }
  }
}
