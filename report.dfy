/** The summary the command line prints after verifying every file: how many were verified,
    how many tampered, and how many fall under "errors" (every other answer, a missing file
    included). */
module Report {
  import opened Wrappers
  import opened IntegrityModel

  datatype Tally = Tally(verified: nat, tampered: nat, errors: int)

  /** How many results carry the status word `name`. */
  function CountStatus(results: seq<(Path, VerifyResult)>, name: string): (n: nat)
    ensures n <= |results|
    decreases |results|
  {
    if results == [] then 0
    else (if results[0].1.Name() == name then 1 else 0) + CountStatus(results[1..], name)
  }

  /** How many results are neither verified nor tampered. */
  function CountUnchecked(results: seq<(Path, VerifyResult)>): (n: nat)
    ensures n <= |results|
    decreases |results|
  {
    if results == [] then 0
    else (if results[0].1.Checked() then 0 else 1) + CountUnchecked(results[1..])
  }

  /** Every result is counted exactly once: as verified, as tampered, or as neither. */
  lemma {:induction false} StatusCountsPartition(results: seq<(Path, VerifyResult)>)
    ensures CountStatus(results, "verified") + CountStatus(results, "tampered") + CountUnchecked(results) == |results|
    decreases |results|
  {
    if results != [] {
      StatusCountsPartition(results[1..]);
    }
  }

  /** The counts printed after verifying every file; errors is whatever is left. */
  function Summarize(results: seq<(Path, VerifyResult)>): (t: Tally)
    ensures t.verified + t.tampered + t.errors == |results|
    ensures t.errors >= 0
    ensures t.errors == CountUnchecked(results)
  {
    var verified := CountStatus(results, "verified");
    var tampered := CountStatus(results, "tampered");
    StatusCountsPartition(results);
    Tally(verified, tampered, |results| - verified - tampered)
  }

  /** One missing file and one intact file count as one verified file and one error. */
  lemma MissingAndIntactTally(missing: Path, intact: Path, hash: string, now: Timestamp)
    ensures Summarize([(missing, FileMissing), (intact, Intact(hash, now))]) == Tally(1, 0, 1)
  {
    var results := [(missing, FileMissing), (intact, Intact(hash, now))];
    assert results[1..][1..] == [];
    assert CountStatus(results, "verified") == 1;
    assert CountStatus(results, "tampered") == 0;
  }

  /** Verifying every file of a two-file table whose first file is gone and whose second is
      unchanged. */
  lemma VerifyAllOfTwo(t: Table, later: Disk, digest: Bytes -> string, now: Timestamp)
    requires t.Valid() && |t.order| == 2
    requires !later.Exists(t.order[0])
    requires CalculateFileHash(later, digest, t.order[1]) == Some(t.files[t.order[1]].hash)
    ensures VerifyAll(t, later, digest, now).0
         == [(t.order[0], FileMissing), (t.order[1], Intact(t.files[t.order[1]].hash, now))]
  {
  }

  /** Two files are added, the first is then deleted: verifying every file finds the first
      missing and the second intact, and the summary counts one verified file and one error. */
  lemma OneOfTwoDeleted(digest: Bytes -> string, a: Bytes, b: Bytes, n1: Timestamp, n2: Timestamp, n3: Timestamp)
    ensures var disk := Disk(map["a.txt" := a, "b.txt" := b], {});
            var t := AfterAdd(AfterAdd(EmptyTable, disk, digest, "a.txt", "", n1), disk, digest, "b.txt", "", n2);
            var results := VerifyAll(t, Disk(map["b.txt" := b], {}), digest, n3).0;
            && results == [("a.txt", FileMissing), ("b.txt", Intact(digest(b), n3))]
            && Summarize(results) == Tally(1, 0, 1)
  {
    var disk := Disk(map["a.txt" := a, "b.txt" := b], {});
    var later := Disk(map["b.txt" := b], {});
    var t := AfterAdd(AfterAdd(EmptyTable, disk, digest, "a.txt", "", n1), disk, digest, "b.txt", "", n2);
    assert t.Valid() && t.order == ["a.txt", "b.txt"] && t.files["b.txt"].hash == digest(b);
    VerifyAllOfTwo(t, later, digest, n3);
    MissingAndIntactTally("a.txt", "b.txt", digest(b), n3);
  }
}
