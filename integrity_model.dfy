/** The integrity database of the file integrity checker, as values.

    The database's "files" dictionary is a `Table`: the paths in the dictionary's insertion
    order, and the record stored under each path. The functions below say what each operation
    of the checker does to a table; the class in module Checker performs the same operations
    in place and is proved against them. The outside world is passed in explicitly: the file
    system as a `Disk`, the SHA-256 digest as a function `digest`, the clock as `now`. */
module IntegrityModel {
  import opened Wrappers

  type Path = string
  type Bytes = seq<bv8>
  /** An ISO-8601 timestamp, taken from the clock; the model never looks inside it. */
  type Timestamp = string

  /** The only hash algorithm the checker records for new entries. */
  const Algorithm: string := "sha256"

  /** What the checker can see of the file system: the content of every existing file, and
      the existing paths whose content cannot be read (a directory, no permission). */
  datatype Disk = Disk(contents: map<Path, Bytes>, unreadable: set<Path>) {
    predicate Exists(p: Path) {
      p in contents
    }
  }

  /** The status a stored record can hold. */
  datatype Status = Verified | Tampered {
    /** The status word stored in the record. */
    function Name(): (n: string)
      ensures n == "verified" <==> Verified?
      ensures n == "tampered" <==> Tampered?
    {
      match this
      case Verified => "verified"
      case Tampered => "tampered"
    }
  }

  /** One entry of the database: the baseline taken when the file was added, and the history
      of the checks made since. `tamperedDate` is absent until a check finds a mismatch. */
  datatype Record = Record(
    hash: string,
    algorithm: string,
    size: nat,
    addedDate: Timestamp,
    lastChecked: Timestamp,
    description: string,
    checkCount: nat,
    status: Status,
    tamperedDate: Option<Timestamp>)

  type FileMap = map<Path, Record>

  predicate Distinct(s: seq<Path>) {
    forall i, j :: 0 <= i < j < |s| ==> s[i] != s[j]
  }

  /** The "files" dictionary: its keys in insertion order, and its records. */
  datatype Table = Table(order: seq<Path>, files: FileMap) {
    /** The order lists every key exactly once. */
    ghost predicate Valid() {
      Distinct(order) && forall p :: p in order <==> p in files
    }
  }

  const EmptyTable: Table := Table([], map[])

  /** Two records share a baseline when everything set by adding the file is the same. */
  predicate SameBaseline(a: Record, b: Record) {
    && a.hash == b.hash
    && a.algorithm == b.algorithm
    && a.size == b.size
    && a.addedDate == b.addedDate
    && a.description == b.description
  }

  /** The hex digest of a file's whole content, or None when the file is absent or cannot
      be read. */
  function CalculateFileHash(disk: Disk, digest: Bytes -> string, p: Path): (h: Option<string>)
    ensures h.Some? <==> disk.Exists(p) && p !in disk.unreadable
    ensures h.Some? ==> h.value == digest(disk.contents[p])
  {
    if disk.Exists(p) && p !in disk.unreadable then Some(digest(disk.contents[p])) else None
  }

  // ---------------------------------------------------------------------------------------
  // add_file

  /** Adding a file (re-)baselines its record; a file that is absent or cannot be hashed
      leaves the table as it was. */
  function AfterAdd(t: Table, disk: Disk, digest: Bytes -> string, p: Path, description: string, now: Timestamp): (r: Table)
    ensures t.Valid() ==> r.Valid()
    ensures CalculateFileHash(disk, digest, p).None? ==> r == t
    ensures CalculateFileHash(disk, digest, p).Some? ==>
      && r.files.Keys == t.files.Keys + {p}
      && r.files[p].hash == digest(disk.contents[p])
      && r.files[p].algorithm == Algorithm
      && r.files[p].size == |disk.contents[p]|
      && r.files[p].addedDate == now && r.files[p].lastChecked == now
      && r.files[p].description == description
      && r.files[p].checkCount == 1
      && r.files[p].status == Verified
      && r.files[p].tamperedDate.None?
      && (forall q :: q in t.files && q != p ==> r.files[q] == t.files[q])
      && r.order == (if p in t.files then t.order else t.order + [p])
  {
    if !disk.Exists(p) then t
    else match CalculateFileHash(disk, digest, p)
      case None => t
      case Some(h) =>
        var rec := Record(h, Algorithm, |disk.contents[p]|, now, now, description, 1, Verified, None);
        Table(if p in t.files then t.order else t.order + [p], t.files[p := rec])
  }

  // ---------------------------------------------------------------------------------------
  // verify_file

  /** The answer of one verification, with the details the caller reports. */
  datatype VerifyResult =
    | NotTracked
    | FileMissing
    | HashFailed
    | Intact(hash: string, lastChecked: Timestamp)
    | Modified(expectedHash: string, currentHash: string, tamperedDate: Timestamp)
  {
    /** The status word the checker returns: one word per outcome, no two outcomes alike. */
    function Name(): (n: string)
      ensures n == "unknown" <==> NotTracked?
      ensures n == "missing" <==> FileMissing?
      ensures n == "error" <==> HashFailed?
      ensures n == "verified" <==> Intact?
      ensures n == "tampered" <==> Modified?
    {
      match this
      case NotTracked => "unknown"
      case FileMissing => "missing"
      case HashFailed => "error"
      case Intact(_, _) => "verified"
      case Modified(_, _, _) => "tampered"
    }

    /** A check that reached the hash comparison, and so was recorded. */
    predicate Checked() {
      Intact? || Modified?
    }
  }

  /** Verifying one path: the result, and the file map afterwards. Only a check that gets as
      far as comparing hashes touches the record; it never touches the baseline. */
  function Verify(files: FileMap, disk: Disk, digest: Bytes -> string, p: Path, now: Timestamp): (out: (VerifyResult, FileMap))
    ensures out.1.Keys == files.Keys
    ensures forall q :: q in files && q != p ==> out.1[q] == files[q]
    ensures out.0.NotTracked? <==> p !in files
    ensures out.0.FileMissing? <==> p in files && !disk.Exists(p)
    ensures out.0.HashFailed? <==> p in files && disk.Exists(p) && p in disk.unreadable
    ensures !out.0.Checked() ==> out.1 == files
    ensures p in files ==> SameBaseline(out.1[p], files[p])
    ensures out.0.Checked() ==>
      out.1[p].checkCount == files[p].checkCount + 1 && out.1[p].lastChecked == now
    ensures out.0.Intact? <==> p in files && CalculateFileHash(disk, digest, p) == Some(files[p].hash)
    ensures out.0.Intact? ==>
      && out.0.hash == files[p].hash
      && out.0.lastChecked == now
      && out.1[p].status == Verified
      && out.1[p].tamperedDate == files[p].tamperedDate
    ensures out.0.Modified? ==>
      && out.0.expectedHash == files[p].hash
      && out.0.currentHash == digest(disk.contents[p])
      && out.0.expectedHash != out.0.currentHash
      && out.0.tamperedDate == now
      && out.1[p].status == Tampered
      && out.1[p].tamperedDate == Some(now)
  {
    if p !in files then (NotTracked, files)
    else if !disk.Exists(p) then (FileMissing, files)
    else match CalculateFileHash(disk, digest, p)
      case None => (HashFailed, files)
      case Some(current) =>
        var stored := files[p];
        var checked := stored.(lastChecked := now, checkCount := stored.checkCount + 1);
        if current == stored.hash then
          (Intact(current, now), files[p := checked.(status := Verified)])
        else
          (Modified(stored.hash, current, now), files[p := checked.(status := Tampered, tamperedDate := Some(now))])
  }

  // ---------------------------------------------------------------------------------------
  // verify_all_files

  /** Verifying every tracked path once: one result per path in table order, and every record
      as a single verification of that path would leave it. */
  function VerifyAll(t: Table, disk: Disk, digest: Bytes -> string, now: Timestamp): (out: (seq<(Path, VerifyResult)>, FileMap))
    ensures |out.0| == |t.order|
    ensures forall i :: 0 <= i < |out.0| ==> out.0[i].0 == t.order[i]
    ensures t.Valid() ==> forall i :: 0 <= i < |out.0| ==> !out.0[i].1.NotTracked?
    ensures out.1.Keys == t.files.Keys
    ensures forall p :: p in t.files ==> SameBaseline(out.1[p], t.files[p])
  {
    (seq(|t.order|, i requires 0 <= i < |t.order| => (t.order[i], Verify(t.files, disk, digest, t.order[i], now).0)),
     map p | p in t.files :: Verify(t.files, disk, digest, p, now).1[p])
  }

  // ---------------------------------------------------------------------------------------
  // remove_file

  /** The sequence with every occurrence of p taken out; in a sequence without duplicates
      that is the one position holding p, and the other elements keep their order. */
  function Without(s: seq<Path>, p: Path): (r: seq<Path>)
    ensures forall q :: q in r <==> q in s && q != p
    ensures Distinct(s) ==> Distinct(r)
    ensures p !in s ==> r == s
  {
    if s == [] then []
    else
      var head, rest := (if s[0] == p then [] else [s[0]]), Without(s[1..], p);
      assert Distinct(s) ==> s[0] !in s[1..];
      AppendDistinct(head, rest);
      head + rest
  }

  /** In a sequence without duplicates, taking out the element at position i leaves the
      others in their order. */
  lemma {:induction false} WithoutKeepsOrder(s: seq<Path>, i: nat)
    requires i < |s| && Distinct(s)
    ensures Without(s, s[i]) == s[..i] + s[i + 1..]
    decreases |s|
  {
    if i == 0 {
      assert s[0] !in s[1..];
      assert s[..0] + s[1..] == s[1..];
    } else {
      WithoutKeepsOrder(s[1..], i - 1);
      assert s[1..][i - 1] == s[i];
      assert s[0] != s[i];
      assert s[..i] == [s[0]] + s[1..][..i - 1];
      assert s[i + 1..] == s[1..][i..];
    }
  }

  /** Removing a path deletes exactly its record; an untracked path changes nothing. */
  function AfterRemove(t: Table, p: Path): (r: Table)
    ensures t.Valid() ==> r.Valid()
    ensures r.files == t.files - {p}
    ensures p !in t.files ==> r == t
    ensures t.Valid() ==> forall i :: 0 <= i < |t.order| && t.order[i] == p ==> r.order == t.order[..i] + t.order[i + 1..]
  {
    if p in t.files then
      assert forall i :: 0 <= i < |t.order| && t.order[i] == p && t.Valid() ==> Without(t.order, p) == t.order[..i] + t.order[i + 1..] by {
        forall i | 0 <= i < |t.order| && t.order[i] == p && t.Valid() ensures Without(t.order, p) == t.order[..i] + t.order[i + 1..] {
          WithoutKeepsOrder(t.order, i);
        }
      }
      Table(Without(t.order, p), t.files - {p})
    else t
  }

  // ---------------------------------------------------------------------------------------
  // import_database

  /** The paths of `incoming`, in order, that are not keys of `existing`. */
  function NewPaths(incoming: seq<Path>, existing: FileMap): (r: seq<Path>)
    ensures forall q :: q in r <==> q in incoming && q !in existing
    ensures Distinct(incoming) ==> Distinct(r)
    ensures |r| <= |incoming|
  {
    if incoming == [] then []
    else (if incoming[0] in existing then [] else [incoming[0]]) + NewPaths(incoming[1..], existing)
  }

  /** NewPaths keeps incoming order: the new paths of a concatenation are those of its first
      part followed by those of its second. */
  lemma {:induction false} NewPathsAppend(a: seq<Path>, b: seq<Path>, existing: FileMap)
    ensures NewPaths(a + b, existing) == NewPaths(a, existing) + NewPaths(b, existing)
    decreases |a|
  {
    if a == [] {
      assert a + b == b;
    } else {
      assert (a + b)[0] == a[0];
      assert (a + b)[1..] == a[1..] + b;
      NewPathsAppend(a[1..], b, existing);
    }
  }

  /** A single incoming path is appended exactly when it is not yet a key. */
  lemma NewPathsSingle(x: Path, existing: FileMap)
    ensures NewPaths([x], existing) == if x in existing then [] else [x]
  {
    assert [x][1..] == [];
  }

  /** Merging an imported table into the current one, as a dictionary update does: incoming
      records win, records only in the base survive, and keys already present keep their
      place while new keys follow in incoming order. */
  function Merge(base: Table, incoming: Table): (r: Table)
    ensures r.files.Keys == base.files.Keys + incoming.files.Keys
    ensures forall p :: p in incoming.files ==> r.files[p] == incoming.files[p]
    ensures forall p :: p in base.files && p !in incoming.files ==> r.files[p] == base.files[p]
    ensures r.order == base.order + NewPaths(incoming.order, base.files)
    ensures base.Valid() && incoming.Valid() ==> r.Valid()
  {
    var added := NewPaths(incoming.order, base.files);
    var r := Table(base.order + added, base.files + incoming.files);
    AppendDistinct(base.order, added);
    r
  }

  /** Appending a distinct sequence of new elements to a distinct sequence keeps it distinct. */
  lemma AppendDistinct(s: seq<Path>, t: seq<Path>)
    ensures Distinct(s) && Distinct(t) && (forall q :: q in t ==> q !in s) ==> Distinct(s + t)
  {
    if Distinct(s) && Distinct(t) && (forall q :: q in t ==> q !in s) {
      forall i, j | 0 <= i < j < |s + t| ensures (s + t)[i] != (s + t)[j] {
        if i < |s| <= j {
          assert (s + t)[j] in t;
        }
      }
    }
  }

  /** Importing a parsed database file (None when it could not be read or parsed): either
      merge it in, or replace the whole table with it. */
  function AfterImport(t: Table, parsed: Option<Table>, merge: bool): (r: Table)
    ensures t.Valid() && (parsed.Some? ==> parsed.value.Valid()) ==> r.Valid()
    ensures parsed.None? ==> r == t
    ensures parsed.Some? && merge ==> r == Merge(t, parsed.value)
    ensures parsed.Some? && !merge ==> r == parsed.value
  {
    match parsed
    case None => t
    case Some(incoming) => if merge then Merge(t, incoming) else incoming
  }

  // ---------------------------------------------------------------------------------------
  // list_files

  /** One line of the listing. */
  datatype Entry = Entry(
    path: Path,
    hash: string,
    size: nat,
    addedDate: Timestamp,
    lastChecked: Timestamp,
    status: string,
    description: string,
    checkCount: nat)

  /** The listing line of the record stored under `p`: its fields, with the status as the
      stored status word. */
  function Describe(p: Path, rec: Record): (e: Entry)
    ensures e.path == p && e.hash == rec.hash && e.size == rec.size
    ensures e.addedDate == rec.addedDate && e.lastChecked == rec.lastChecked
    ensures e.description == rec.description && e.checkCount == rec.checkCount
    ensures e.status == "verified" <==> rec.status == Verified
    ensures e.status == "tampered" <==> rec.status == Tampered
  {
    Entry(p, rec.hash, rec.size, rec.addedDate, rec.lastChecked, rec.status.Name(), rec.description, rec.checkCount)
  }
}
