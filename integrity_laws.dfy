/** Properties of the integrity database that span several operations. */
module IntegrityLaws {
  import opened Wrappers
  import opened IntegrityModel

  /** Verifying a path reads and writes only that path's record. */
  lemma VerifyDependsOnOwnRecord(f1: FileMap, f2: FileMap, disk: Disk, digest: Bytes -> string, p: Path, now: Timestamp)
    requires p in f1 <==> p in f2
    requires p in f1 ==> f1[p] == f2[p]
    ensures Verify(f1, disk, digest, p, now).0 == Verify(f2, disk, digest, p, now).0
    ensures p in f1 ==> Verify(f1, disk, digest, p, now).1[p] == Verify(f2, disk, digest, p, now).1[p]
  {
  }

  /** The state of the file map after the first `i` paths of `t` have been verified in
      order: those records are as VerifyAll leaves them, the rest are untouched. */
  ghost predicate VerifiedUpTo(t: Table, files: FileMap, disk: Disk, digest: Bytes -> string, now: Timestamp, i: nat)
  {
    && t.Valid()
    && i <= |t.order|
    && files.Keys == t.files.Keys
    && (forall k :: 0 <= k < i ==> files[t.order[k]] == VerifyAll(t, disk, digest, now).1[t.order[k]])
    && (forall k :: i <= k < |t.order| ==> files[t.order[k]] == t.files[t.order[k]])
  }

  /** Verifying the next path in order yields VerifyAll's result for it and extends the
      verified prefix by one. */
  lemma VerifyAllStep(t: Table, files: FileMap, disk: Disk, digest: Bytes -> string, now: Timestamp, i: nat)
    requires t.Valid() && i < |t.order| && VerifiedUpTo(t, files, disk, digest, now, i)
    ensures Verify(files, disk, digest, t.order[i], now).0 == VerifyAll(t, disk, digest, now).0[i].1
    ensures VerifiedUpTo(t, Verify(files, disk, digest, t.order[i], now).1, disk, digest, now, i + 1)
  {
    var p := t.order[i];
    VerifyDependsOnOwnRecord(files, t.files, disk, digest, p, now);
    var after := Verify(files, disk, digest, p, now).1;
    forall k | 0 <= k < |t.order| && k != i ensures after[t.order[k]] == files[t.order[k]] {
      assert t.order[k] != p;
    }
  }

  /** Once every path has been verified, the file map is VerifyAll's. */
  lemma VerifyAllDone(t: Table, files: FileMap, disk: Disk, digest: Bytes -> string, now: Timestamp)
    requires t.Valid() && VerifiedUpTo(t, files, disk, digest, now, |t.order|)
    ensures files == VerifyAll(t, disk, digest, now).1
  {
    forall q | q in files ensures files[q] == VerifyAll(t, disk, digest, now).1[q] {
      var k :| 0 <= k < |t.order| && t.order[k] == q;
    }
  }

  // ---------------------------------------------------------------------------------------
  // Repeated verification of one path

  /** One later visit to the file: the file system as it then is, and the clock. */
  datatype Visit = Visit(disk: Disk, now: Timestamp)

  /** The file map after verifying `p` once per visit, in order. */
  function Reverify(files: FileMap, digest: Bytes -> string, p: Path, visits: seq<Visit>): FileMap
    decreases |visits|
  {
    if visits == [] then files
    else Reverify(Verify(files, visits[0].disk, digest, p, visits[0].now).1, digest, p, visits[1..])
  }

  /** How many of the visits found the file present and readable. */
  function ReadableVisits(digest: Bytes -> string, p: Path, visits: seq<Visit>): nat
    decreases |visits|
  {
    if visits == [] then 0
    else (if CalculateFileHash(visits[0].disk, digest, p).Some? then 1 else 0) + ReadableVisits(digest, p, visits[1..])
  }

  /** However many times a tracked path is verified, its baseline (stored hash, size,
      description, date added) is never rewritten, no record appears or disappears, other
      records are untouched, and its check count grows by exactly the number of checks that
      could read the file; checks that found it missing or unreadable are not counted. */
  lemma {:induction false} ReverifyKeepsBaseline(files: FileMap, digest: Bytes -> string, p: Path, visits: seq<Visit>)
    requires p in files
    ensures Reverify(files, digest, p, visits).Keys == files.Keys
    ensures SameBaseline(Reverify(files, digest, p, visits)[p], files[p])
    ensures Reverify(files, digest, p, visits)[p].checkCount == files[p].checkCount + ReadableVisits(digest, p, visits)
    ensures forall q :: q in files && q != p ==> Reverify(files, digest, p, visits)[q] == files[q]
    decreases |visits|
  {
    if visits != [] {
      var next := Verify(files, visits[0].disk, digest, p, visits[0].now).1;
      ReverifyKeepsBaseline(next, digest, p, visits[1..]);
    }
  }

  // ---------------------------------------------------------------------------------------
  // Adding, then verifying

  /** A file that is unchanged since it was added verifies, keeping its hash; the check is its
      second. */
  lemma AddThenVerifyUnchanged(t: Table, disk: Disk, digest: Bytes -> string, p: Path, description: string, added: Timestamp, checked: Timestamp)
    requires CalculateFileHash(disk, digest, p).Some?
    ensures var before := AfterAdd(t, disk, digest, p, description, added).files;
            var (result, after) := Verify(before, disk, digest, p, checked);
            && result == Intact(digest(disk.contents[p]), checked)
            && after[p].hash == before[p].hash
            && after[p].status == Verified
            && after[p].checkCount == 2
  {
  }

  /** A file whose digest has changed since it was added is reported tampered, with the hash
      taken when it was added as expected and the new digest as current; the stored hash is
      kept and the check is its second. */
  lemma AddThenVerifyChanged(t: Table, disk: Disk, later: Disk, digest: Bytes -> string, p: Path, description: string, added: Timestamp, checked: Timestamp)
    requires CalculateFileHash(disk, digest, p).Some? && CalculateFileHash(later, digest, p).Some?
    requires digest(later.contents[p]) != digest(disk.contents[p])
    ensures var before := AfterAdd(t, disk, digest, p, description, added).files;
            var (result, after) := Verify(before, later, digest, p, checked);
            && result == Modified(digest(disk.contents[p]), digest(later.contents[p]), checked)
            && after[p].hash == digest(disk.contents[p])
            && after[p].status == Tampered
            && after[p].checkCount == 2
  {
  }

  /** A file deleted after it was added is reported missing, and the record is left exactly
      as adding it made it. */
  lemma AddThenDelete(t: Table, disk: Disk, later: Disk, digest: Bytes -> string, p: Path, description: string, added: Timestamp, checked: Timestamp)
    requires CalculateFileHash(disk, digest, p).Some? && !later.Exists(p)
    ensures var before := AfterAdd(t, disk, digest, p, description, added).files;
            var (result, after) := Verify(before, later, digest, p, checked);
            && result == FileMissing
            && after == before
            && after[p].checkCount == 1
  {
  }

  /** Adding a tracked path again replaces its record entirely: the table is the same as if
      only the second add had happened. */
  lemma ReAddOverwrites(t: Table, disk1: Disk, disk2: Disk, digest: Bytes -> string, p: Path, d1: string, d2: string, n1: Timestamp, n2: Timestamp)
    requires CalculateFileHash(disk2, digest, p).Some?
    ensures AfterAdd(AfterAdd(t, disk1, digest, p, d1, n1), disk2, digest, p, d2, n2)
         == AfterAdd(t, disk2, digest, p, d2, n2)
  {
    var once := AfterAdd(t, disk1, digest, p, d1, n1);
    var twice := AfterAdd(once, disk2, digest, p, d2, n2);
    var direct := AfterAdd(t, disk2, digest, p, d2, n2);
    assert twice.files == direct.files;
  }

  // ---------------------------------------------------------------------------------------
  // Removing

  lemma {:induction false} WithoutAppendAbsent(s: seq<Path>, p: Path)
    requires p !in s
    ensures Without(s + [p], p) == s
    decreases |s|
  {
    if s == [] {
    } else {
      assert (s + [p])[1..] == s[1..] + [p];
      WithoutAppendAbsent(s[1..], p);
    }
  }

  /** Adding an untracked path and then removing it restores the table exactly, order
      included. */
  lemma RemoveUndoesAdd(t: Table, disk: Disk, digest: Bytes -> string, p: Path, description: string, now: Timestamp)
    requires t.Valid() && p !in t.files
    ensures AfterRemove(AfterAdd(t, disk, digest, p, description, now), p) == t
  {
    var added := AfterAdd(t, disk, digest, p, description, now);
    if CalculateFileHash(disk, digest, p).Some? {
      assert added.order == t.order + [p];
      assert added.files - {p} == t.files;
      WithoutAppendAbsent(t.order, p);
      assert AfterRemove(added, p) == Table(Without(added.order, p), added.files - {p});
    }
  }

  /** After a path is removed, verifying it answers unknown and creates nothing. */
  lemma RemovedIsUnknown(t: Table, disk: Disk, digest: Bytes -> string, p: Path, now: Timestamp)
    ensures var removed := AfterRemove(t, p).files;
            Verify(removed, disk, digest, p, now) == (NotTracked, removed)
  {
  }

  // ---------------------------------------------------------------------------------------
  // Importing

  lemma {:induction false} NewPathsOfKnown(incoming: seq<Path>, existing: FileMap)
    requires forall q :: q in incoming ==> q in existing
    ensures NewPaths(incoming, existing) == []
    decreases |incoming|
  {
    if incoming != [] {
      NewPathsOfKnown(incoming[1..], existing);
    }
  }

  lemma {:induction false} NewPathsOfNothing(incoming: seq<Path>)
    ensures NewPaths(incoming, map[]) == incoming
    decreases |incoming|
  {
    if incoming != [] {
      NewPathsOfNothing(incoming[1..]);
    }
  }

  /** Merging the same file twice changes nothing the second time. */
  lemma MergeIdempotent(base: Table, incoming: Table)
    requires incoming.Valid()
    ensures Merge(Merge(base, incoming), incoming) == Merge(base, incoming)
  {
    var once := Merge(base, incoming);
    NewPathsOfKnown(incoming.order, once.files);
    assert once.files + incoming.files == once.files;
  }

  /** Merging a table into itself changes nothing. */
  lemma MergeSelf(t: Table)
    requires t.Valid()
    ensures Merge(t, t) == t
  {
    NewPathsOfKnown(t.order, t.files);
  }

  /** Merging an empty file changes nothing; merging into an empty table yields the incoming
      table. */
  lemma MergeEmpty(t: Table)
    requires t.Valid()
    ensures Merge(t, EmptyTable) == t
    ensures Merge(EmptyTable, t) == t
  {
    assert t.files + map[] == t.files;
    assert map[] + t.files == t.files;
    NewPathsOfNothing(t.order);
  }

  /** Importing into an empty table yields the incoming table, whether merging or
      replacing. */
  lemma ImportIntoEmpty(incoming: Table, merge: bool)
    requires incoming.Valid()
    ensures AfterImport(EmptyTable, Some(incoming), merge) == incoming
  {
    if merge {
      MergeEmpty(incoming);
    }
  }
}
