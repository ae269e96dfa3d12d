# File integrity checker — the integrity database in Dafny

This project models the in-memory integrity database of the file integrity checker
(`FileIntegrityChecker` in `file_integrity_checker.py`). The checker records a SHA-256
fingerprint of each tracked file and later recomputes it to detect tampering. The database's
`files` dictionary maps a path to a record. The record holds the hash, the algorithm, the size,
the date added, the date last checked, a description, a check count, a status and, after a
mismatch, the date tampering was found.

The model has five modules:

- `Wrappers` (`wrappers.dfy`): the `Option` type.
- `IntegrityModel` (`integrity_model.dfy`): the data model and one function per operation,
  acting on a `Table` value. A table is the dictionary's keys in insertion order plus its
  records. Python dictionaries keep insertion order, so the model keeps it too.
  `Table.Valid()` says that the order lists every key exactly once. These are the functions:
  - `AfterAdd`: adding or re-baselining a file.
  - `Verify`: the verification state machine, with the outcomes unknown, missing, error,
    verified and tampered.
  - `VerifyAll`: verifying every tracked file.
  - `AfterRemove`: removing a file.
  - `Merge` and `AfterImport`: importing a database, merged in or as a replacement.
  - `Describe`: one line of the listing.
- `Checker` (`checker.dfy`): the class `FileIntegrityChecker`. Its fields `order` and
  `files` are updated in place by `AddFile`, `VerifyFile`, `VerifyAllFiles`, `RemoveFile` and
  `ImportDatabase`. `ListFiles` builds the listing with a loop. Each method's postcondition
  ties the new state and the result to the matching function of `IntegrityModel`.
  `VerifyAllFiles` runs `VerifyFile` once per key in a loop. It is proved equal to
  `VerifyAll`, which verifies every record against the database as it was before the loop.
- `IntegrityLaws` (`integrity_laws.dfy`): properties that span several operations.
  - Repeated verification never rewrites a baseline, and it adds exactly one to the check
    count for each check that could read the file.
  - Add followed by verify gives verified, tampered or missing.
  - A second add fully overwrites the first.
  - Remove undoes an add, and a removed path verifies as unknown.
  - The merge laws: merging twice is idempotent, a table merged with itself or with an empty
    table is unchanged, and importing into an empty table gives the incoming table.
- `Report` (`report.dfy`): the verify-all summary printed by the command line. It counts
  verified results, tampered results and "errors", which is everything else.

The outside world is passed in as parameters:

- The file system is a `Disk`: the content of each existing file, plus the set of existing
  paths that cannot be read.
- The SHA-256 digest (FIPS 180-4) is the checker's constant `digest: Bytes -> string`.
  Nothing about its internals is assumed. Where a property needs changed content to give a
  different digest, that is a precondition.
- The clock is an opaque `now` timestamp, one per operation.
- The result of writing the database file is a `saveOk` flag.
- The result of reading and parsing an import file is an `Option<Table>`.

One might expect every check to be counted and a clean check to clear an old finding. The code
differs here, and the model follows the code:

- When a tracked file is missing, or its hash cannot be computed, `verify_file` returns
  early (`file_integrity_checker.py:93-100`). It does not touch the status, the
  last-checked date or the check count. So those checks are not counted, and the record
  stays exactly as it was. `Verify` and `ReverifyKeepsBaseline` state this.
- The verify-all summary counts a missing file under "errors"
  (`file_integrity_checker.py:229-231`). `OneOfTwoDeleted` shows this.
- A check that finds the file intact again keeps an earlier tampered date. The code never
  clears it.

## Model

| member | source | states |
|---|---|---|
| IntegrityModel.CalculateFileHash | file_integrity_checker.py:46-57 | a hash is produced exactly when the file exists and can be read, and it is the digest of the file's whole content |
| IntegrityModel.AfterAdd | file_integrity_checker.py:59-84 | an absent or unhashable file leaves the table unchanged; otherwise the path's record is replaced by a fresh baseline (digest of the content, its size, the description, date added and last checked = now, check count 1, status verified, no tampered date), every other record is untouched, a new path is appended to the order and an existing one keeps its place, and the order invariant is kept |
| IntegrityModel.Verify | file_integrity_checker.py:86-123 | unknown exactly when the path is untracked, missing exactly when the file is gone, error exactly when it cannot be read, and in those three cases the map is unchanged; no key is created or deleted and other records are untouched; the baseline (hash, algorithm, size, date added, description) is never rewritten; a completed check adds exactly 1 to the check count and sets last checked; verified exactly when the current digest equals the stored hash, and the result carries that hash and the new last-checked time; tampered carries the stored hash as expected and the new digest as current, which differ, sets the tampered date and returns it |
| IntegrityModel.VerifyAll | file_integrity_checker.py:125-131 | one result per tracked path, in table order and keyed by that path, none of them unknown; the key set is unchanged and no baseline is rewritten |
| IntegrityModel.Without | file_integrity_checker.py:137 | deleting a key from the order removes exactly that key and keeps the others distinct |
| IntegrityModel.WithoutKeepsOrder | file_integrity_checker.py:137 | deleting the key at position i leaves exactly the keys before it followed by the keys after it, in their order |
| IntegrityModel.AfterRemove | file_integrity_checker.py:133-139 | the file map loses exactly the given key; an untracked path leaves the table unchanged; a tracked path's position is cut out of the order and every other key keeps its place; the order invariant is kept |
| IntegrityModel.NewPaths | file_integrity_checker.py:174 | the incoming keys that are new to the base, each once |
| IntegrityModel.NewPathsAppend | file_integrity_checker.py:174 | the new keys of a concatenation are those of its first part followed by those of its second, so new keys are appended in the imported file's order |
| IntegrityModel.NewPathsSingle | file_integrity_checker.py:174 | a single imported key is appended exactly when it is not yet a key |
| IntegrityModel.Merge | file_integrity_checker.py:173-174 | the merged keys are the union; incoming records win; records only in the base are unchanged; existing keys keep their positions and the new keys follow in the imported file's order; the order invariant is kept |
| IntegrityModel.VerifyResult.Name | file_integrity_checker.py:90-123 | the status word returned: unknown, missing, error, verified or tampered, each exactly for its own outcome |
| IntegrityModel.Status.Name | file_integrity_checker.py:107-115 | the stored status word: verified or tampered, each exactly for its own status |
| IntegrityModel.Describe | file_integrity_checker.py:145-154 | a listing line carries the path and the record's hash, size, date added, last checked, description and check count, and the stored status word |
| IntegrityModel.AfterImport | file_integrity_checker.py:167-181 | an unreadable or unparsable source changes nothing; merge applies Merge; otherwise the table is replaced wholesale by the incoming one; valid inputs give a valid table |
| Checker.FileIntegrityChecker.constructor | file_integrity_checker.py:19-22 | the checker starts from the loaded database |
| Checker.FileIntegrityChecker.AddFile | file_integrity_checker.py:59-84 | the new state is AfterAdd of the old one; returns true exactly when the file could be hashed and the save succeeded |
| Checker.FileIntegrityChecker.VerifyFile | file_integrity_checker.py:86-123 | the result and the new file map are those of Verify on the old map; the order is unchanged |
| Checker.FileIntegrityChecker.VerifyAllFiles | file_integrity_checker.py:125-131 | verifying each key in turn in place gives exactly VerifyAll of the state before the loop |
| Checker.FileIntegrityChecker.RemoveFile | file_integrity_checker.py:133-139 | the new state is AfterRemove of the old one; returns true exactly when the path was tracked and the save succeeded |
| Checker.FileIntegrityChecker.ImportDatabase | file_integrity_checker.py:167-181 | the new state is AfterImport of the old one; returns true exactly when the source was parsed and the save succeeded |
| Checker.FileIntegrityChecker.ListFiles | file_integrity_checker.py:141-155 | one entry per tracked path in table order, each the record's projection; every tracked path is listed and none twice |
| IntegrityLaws.VerifyDependsOnOwnRecord | file_integrity_checker.py:96-116 | a verification's result and its updated record depend only on that path's own record |
| IntegrityLaws.VerifyAllStep | file_integrity_checker.py:128-130 | verifying the next key in order gives VerifyAll's result for it and leaves the earlier records as VerifyAll does and the later ones untouched |
| IntegrityLaws.VerifyAllDone | file_integrity_checker.py:128-130 | once every key has been verified, the file map is VerifyAll's |
| IntegrityLaws.ReverifyKeepsBaseline | file_integrity_checker.py:93-116 | over any sequence of verifications of one path, the stored hash and rest of the baseline never change, no key appears or disappears, other records are untouched, and the check count grows by exactly the number of checks that could read the file |
| IntegrityLaws.AddThenVerifyUnchanged | file_integrity_checker.py:59-113 | a file unchanged since it was added verifies, with the same stored hash, status verified and check count 2 |
| IntegrityLaws.AddThenVerifyChanged | file_integrity_checker.py:59-123 | a file whose digest changed since it was added is tampered, with expected = the digest at add time and current = the new digest, the stored hash kept and check count 2 |
| IntegrityLaws.AddThenDelete | file_integrity_checker.py:59-94 | a file deleted after it was added is missing, and its record is left exactly as add made it (check count 1) |
| IntegrityLaws.ReAddOverwrites | file_integrity_checker.py:71-83 | adding a path twice gives the same table as adding it once with the second file and description |
| IntegrityLaws.WithoutAppendAbsent | file_integrity_checker.py:137 | deleting a key that was just appended restores the previous order |
| IntegrityLaws.RemoveUndoesAdd | file_integrity_checker.py:133-139 | adding an untracked path and then removing it restores the table exactly, order included |
| IntegrityLaws.RemovedIsUnknown | file_integrity_checker.py:86-91 | after a path is removed, verifying it answers unknown and creates nothing |
| IntegrityLaws.NewPathsOfKnown | file_integrity_checker.py:174 | an update whose keys all exist already appends no key |
| IntegrityLaws.NewPathsOfNothing | file_integrity_checker.py:174 | updating an empty dictionary appends every incoming key in order |
| IntegrityLaws.MergeIdempotent | file_integrity_checker.py:173-174 | merging the same import a second time changes nothing |
| IntegrityLaws.MergeSelf | file_integrity_checker.py:173-174 | merging a table into itself changes nothing |
| IntegrityLaws.MergeEmpty | file_integrity_checker.py:173-174 | merging an empty import changes nothing, and merging into an empty table gives the incoming table |
| IntegrityLaws.ImportIntoEmpty | file_integrity_checker.py:173-176 | importing into an empty table gives the incoming table, whether merging or replacing |
| Report.CountStatus | file_integrity_checker.py:229-230 | the number of results with a given status word is at most the number of results |
| Report.CountUnchecked | file_integrity_checker.py:231 | the number of results that are neither verified nor tampered is at most the number of results |
| Report.StatusCountsPartition | file_integrity_checker.py:229-231 | every result is counted exactly once, as verified, as tampered or as neither |
| Report.Summarize | file_integrity_checker.py:229-231 | verified + tampered + errors equals the number of results, errors is never negative, and errors is exactly the number of results that are neither verified nor tampered |
| Report.MissingAndIntactTally | file_integrity_checker.py:229-231 | one missing and one intact result count as 1 verified, 0 tampered, 1 error |
| Report.VerifyAllOfTwo | file_integrity_checker.py:125-131 | in a two-file table whose first file is gone and whose second is unchanged, verify-all reports missing and then verified |
| Report.OneOfTwoDeleted | file_integrity_checker.py:227-231 | adding two files and deleting the first, verify-all reports the first missing and the second verified, summarised as 1 verified, 0 tampered, 1 error |

## Left out

- Reading and writing the database file (`_load_database`, `_save_database`,
  `export_database`, and the JSON parsing in `import_database`). These are I/O through a JSON
  library. The loaded database is a constructor argument. The parsed import is an
  `Option<Table>`. The save result is a `saveOk` flag. So the export/import round trip is not
  modelled.
- The `metadata` part of the database (`created`, `last_updated`). The model keeps only the
  `files` part. `Some(table)` for an import stands only for a parsed document that holds both
  `files` and `metadata`. `saveOk` models only the I/O-error outcome of a save.
  `_save_database` (`file_integrity_checker.py:35-44`) catches only I/O errors: it raises
  `KeyError` at line 38 when the database has no `metadata` key. So a replacing import of a
  document without `metadata` first replaces the database (line 176) and then raises instead
  of returning, since the handler at line 179 does not catch `KeyError`. The unguarded saves
  in `verify_file` (lines 108 and 117) would then raise too, and verify-all would stop
  partway through. The model does not capture these exceptions.
- The internals of `calculate_file_hash`: the chunked read and `hashlib`. The model keeps the
  whole-content digest `digest` and a set of unreadable paths. The `algorithm` stored in a
  record is not used to choose the digest.
- `os.path.abspath`. Every key is taken as already normalised. In the source, keys brought in
  by an import never pass through `abspath`, but `verify_file` does normalise its argument.
  So verifying a relative or non-normalised imported key checks its normalised form instead.
  If that form is not a key, the answer is "unknown", also inside verify-all. If that form is
  itself a key, `verify_file` checks and updates that other record, so verify-all checks it
  twice. The model cannot show either case: its `VerifyAll` checks each tracked key's own
  record exactly once and never answers unknown for it.
- `os.stat`. The recorded size is the length of the content the model reads.
- Wall-clock timestamps. Each operation takes one opaque `now`. The source reads the clock
  separately for the last-checked date and the tampered date, and the model does not keep
  those values apart.
- The `.get(..., default)` fallbacks for malformed records loaded from disk. Every record in
  the model is well-formed.
- The message strings in the dictionaries returned by `verify_file`.
- The command line in `main`: argument parsing, messages and status symbols. The verify-all
  tally arithmetic is kept (`Report`).
- Concurrency. The checker is single-threaded and the model is sequential.
