/** The indexer, `runUpdate` (src/commands/update.ts): walks a folder, and for every
    media file runs `INSERT OR IGNORE` of a pending row keyed by the file's
    (hash, size), counting inserted and skipped files.

    The folder is given as the tree a walk would see (absent when the path does not
    exist); file contents as `disk`, a map from path to bytes (a path missing from it
    is a file that vanished between the walk and the read). The command hashes with
    `Hasher(xxh64)`, the 16-digit text of a 64-bit xxHash; the indexing functions and
    their lemmas take any `hashFile`. */
module Update {
  import opened Wrappers
  import opened Content
  import opened Media
  import opened Db

  datatype UpdateError =
    | TargetNotDirectory(targetFolder: string)   // the `throw` before the catalog is opened
    | FileUnreadable(filePath: string)           // `statSync`/`hashFile` failing on a walked file
    | WalkFailed(path: string)                   // `readdirSync`/`statSync` failing during the walk

  datatype UpdateCounts = UpdateCounts(inserted: nat, skipped: nat)

  /** The row `insertStmt.run(filePath, hash, size, nowIso())` tries to add. */
  function PendingRow(filePath: string, content: Bytes, hashFile: Bytes -> string, now: Timestamp): (r: Row)
    ensures r.status == Pending && r.path == filePath
    ensures Identity(r.hash, r.size) == Identity(hashFile(content), |content|)
  {
    NewRow(filePath, hashFile(content), |content|, Some(Pending), None, None, now)
  }

  /** How many files, from the front, can be read. */
  function ReadablePrefix(files: seq<string>, disk: Disk): (k: nat)
    ensures k <= |files|
    ensures forall j :: 0 <= j < k ==> files[j] in disk
    ensures k < |files| ==> files[k] !in disk
  {
    if files == [] || files[0] !in disk then 0 else 1 + ReadablePrefix(files[1..], disk)
  }

  predicate AllReadable(files: seq<string>, disk: Disk) {
    forall j :: 0 <= j < |files| ==> files[j] in disk
  }

  function FileIdentity(filePath: string, disk: Disk, hashFile: Bytes -> string): Identity
    requires filePath in disk
  {
    Identity(hashFile(disk[filePath]), |disk[filePath]|)
  }

  predicate Known(t: Table, id: Identity) {
    HasIdentity(t.rows, id.hash, id.size)
  }

  /** The catalog after inserting the files in order, and for each file whether its
      insert added a row (`result.changes > 0`). */
  function IndexAll(t: Table, files: seq<string>, disk: Disk, hashFile: Bytes -> string, now: Timestamp): (r: (Table, seq<bool>))
    requires ValidTable(t) && AllReadable(files, disk)
    ensures ValidTable(r.0) && |r.1| == |files|
  {
    if files == [] then (t, [])
    else
      var n := |files| - 1;
      var (t', flags) := IndexAll(t, files[..n], disk, hashFile, now);
      var (t'', added) := AfterInsertOrIgnore(t', PendingRow(files[n], disk[files[n]], hashFile, now));
      (t'', flags + [added])
  }

  lemma IndexAllStep(t: Table, files: seq<string>, i: nat, disk: Disk, hashFile: Bytes -> string, now: Timestamp)
    requires ValidTable(t) && i < |files| && AllReadable(files[..i + 1], disk)
    ensures AllReadable(files[..i], disk) && files[i] in disk
    ensures var prev := IndexAll(t, files[..i], disk, hashFile, now);
      var step := AfterInsertOrIgnore(prev.0, PendingRow(files[i], disk[files[i]], hashFile, now));
      IndexAll(t, files[..i + 1], disk, hashFile, now) == (step.0, prev.1 + [step.1])
  {
    assert files[..i + 1][..i] == files[..i];
    assert files[..i + 1][i] == files[i];
  }

  function CountTrue(flags: seq<bool>): (n: nat)
    ensures n <= |flags|
  {
    if flags == [] then 0 else CountTrue(flags[..|flags| - 1]) + (if flags[|flags| - 1] then 1 else 0)
  }

  /** What the indexing loop leaves: the catalog after the inserts of the files before
      the first one that cannot be read, and the counts, or that file. */
  function IndexOutcome(t: Table, files: seq<string>, disk: Disk, hashFile: Bytes -> string, now: Timestamp)
    : (Table, Result<UpdateCounts, UpdateError>)
    requires ValidTable(t)
  {
    var k := ReadablePrefix(files, disk);
    assert AllReadable(files[..k], disk);
    var run := IndexAll(t, files[..k], disk, hashFile, now);
    (run.0, if k == |files| then Ok(UpdateCounts(CountTrue(run.1), |files| - CountTrue(run.1))) else Err(FileUnreadable(files[k])))
  }

  /** The outcome when the file at `index` is the first that cannot be read. */
  lemma OutcomeStopped(t: Table, files: seq<string>, disk: Disk, hashFile: Bytes -> string, now: Timestamp, index: nat)
    requires ValidTable(t) && index < |files| && AllReadable(files[..index], disk) && files[index] !in disk
    ensures ReadablePrefix(files, disk) == index
    ensures IndexOutcome(t, files, disk, hashFile, now) == (IndexAll(t, files[..index], disk, hashFile, now).0, Err(FileUnreadable(files[index])))
  {
    assert forall j :: 0 <= j < index ==> files[j] in disk by {
      forall j | 0 <= j < index
        ensures files[j] in disk
      {
        assert files[..index][j] == files[j];
      }
    }
    var k := ReadablePrefix(files, disk);
  }

  /** The outcome when every file can be read. */
  lemma OutcomeFinished(t: Table, files: seq<string>, disk: Disk, hashFile: Bytes -> string, now: Timestamp)
    requires ValidTable(t) && AllReadable(files, disk)
    ensures ReadablePrefix(files, disk) == |files|
    ensures var run := IndexAll(t, files, disk, hashFile, now);
      IndexOutcome(t, files, disk, hashFile, now) == (run.0, Ok(UpdateCounts(CountTrue(run.1), |files| - CountTrue(run.1))))
  {
    AllReadablePrefix(files, disk);
    var k := ReadablePrefix(files, disk);
    assert files[..k] == files;
    var run := IndexAll(t, files, disk, hashFile, now);
    assert IndexAll(t, files[..k], disk, hashFile, now) == run;
    assert IndexOutcome(t, files, disk, hashFile, now) == (run.0, Ok(UpdateCounts(CountTrue(run.1), |files| - CountTrue(run.1))));
  }

  lemma AllReadablePrefix(files: seq<string>, disk: Disk)
    requires AllReadable(files, disk)
    ensures ReadablePrefix(files, disk) == |files|
  {
    var k := ReadablePrefix(files, disk);
  }

  /** `runUpdate(targetFolder, dbPath)`. `stored` is the catalog file before the run
      (absent if it does not exist yet); `persisted` is the catalog file afterwards. */
  method RunUpdate(targetFolder: string, tree: Option<Entry>, stored: Option<Table>,
                   disk: Disk, xxh64: Bytes -> U64, now: Timestamp)
    returns (result: Result<UpdateCounts, UpdateError>, persisted: Option<Table>)
    requires stored.Some? ==> ValidTable(stored.value)
    ensures !(tree.Some? && IsDirectory(tree.value)) ==>
      result == Err(TargetNotDirectory(targetFolder)) && persisted == stored
    ensures tree.Some? && IsDirectory(tree.value) && WalkError(tree.value).Some? ==>
      result == Err(WalkFailed(WalkError(tree.value).value)) && persisted == Some(stored.GetOr(EMPTY))
    ensures tree.Some? && IsDirectory(tree.value) && WalkError(tree.value).None? ==>
      var outcome := IndexOutcome(stored.GetOr(EMPTY), EntryMediaFiles(tree.value), disk, Hasher(xxh64), now);
      persisted == Some(outcome.0) && result == outcome.1
  {
    if !(tree.Some? && IsDirectory(tree.value)) {
      return Err(TargetNotDirectory(targetFolder)), stored;
    }
    var catalog := new Catalog.Open(stored);
    var walk := GetAllImageFiles(tree.value);
    if walk.Err? {
      return Err(WalkFailed(walk.error)), Some(catalog.Contents());
    }
    var files := walk.value;
    result := IndexFiles(catalog, files, disk, Hasher(xxh64), now);
    persisted := Some(catalog.Contents());
  }

  /** The `for` loop of `runUpdate`: one insert per file, counting the outcomes. It
      stops at the first file that cannot be read; the rows inserted before it stay. */
  method IndexFiles(catalog: Catalog, files: seq<string>, disk: Disk, hashFile: Bytes -> string, now: Timestamp)
    returns (result: Result<UpdateCounts, UpdateError>)
    requires catalog.Valid()
    modifies catalog
    ensures catalog.Valid()
    ensures (catalog.Contents(), result) == IndexOutcome(old(catalog.Contents()), files, disk, hashFile, now)
  {
    ghost var start := catalog.Contents();
    ghost var flags: seq<bool> := [];
    var inserted, skipped := 0, 0;

    var index := 0;
    while index < |files|
      invariant index <= |files| && AllReadable(files[..index], disk)
      invariant catalog.Valid()
      invariant (catalog.Contents(), flags) == IndexAll(start, files[..index], disk, hashFile, now)
      invariant inserted == CountTrue(flags) && inserted + skipped == index
    {
      var filePath := files[index];
      if filePath !in disk {
        OutcomeStopped(start, files, disk, hashFile, now, index);
        return Err(FileUnreadable(filePath));
      }
      var added;
      added, flags := InsertFile(catalog, files, index, disk, hashFile, now, start, flags);
      if added {
        inserted := inserted + 1;
      } else {
        skipped := skipped + 1;
      }
      index := index + 1;
    }
    assert files[..index] == files;
    OutcomeFinished(start, files, disk, hashFile, now);
    return Ok(UpdateCounts(inserted, skipped));
  }

  /** One pass of the loop over a readable file: hash it, then
      `insertStmt.run(filePath, hash, size, nowIso())`; `added` is whether a row was
      inserted. */
  method InsertFile(catalog: Catalog, files: seq<string>, index: nat, disk: Disk, hashFile: Bytes -> string,
                    now: Timestamp, ghost start: Table, ghost flags: seq<bool>)
    returns (added: bool, ghost flags': seq<bool>)
    requires catalog.Valid() && index < |files| && files[index] in disk
    requires ValidTable(start) && AllReadable(files[..index], disk)
    requires (catalog.Contents(), flags) == IndexAll(start, files[..index], disk, hashFile, now)
    modifies catalog
    ensures catalog.Valid() && AllReadable(files[..index + 1], disk)
    ensures (catalog.Contents(), flags') == IndexAll(start, files[..index + 1], disk, hashFile, now)
    ensures flags' == flags + [added] && CountTrue(flags') == CountTrue(flags) + (if added then 1 else 0)
  {
    ReadableExtend(files, index, disk);
    IndexAllStep(start, files, index, disk, hashFile, now);
    var filePath := files[index];
    var content := disk[filePath];
    var size := |content|;
    var hash := hashFile(content);
    var row := NewRow(filePath, hash, size, Some(Pending), None, None, now);
    assert row == PendingRow(files[index], disk[files[index]], hashFile, now);
    var changes := catalog.InsertOrIgnore(row);
    added := changes > 0;
    flags' := flags + [added];
    CountTrueSnoc(flags, added);
  }

  lemma ReadableExtend(files: seq<string>, index: nat, disk: Disk)
    requires index < |files| && AllReadable(files[..index], disk) && files[index] in disk
    ensures AllReadable(files[..index + 1], disk)
  {
    var longer := files[..index + 1];
    forall j | 0 <= j < |longer|
      ensures longer[j] in disk
    {
      if j < index {
        assert files[..index][j] == files[j];
      }
    }
  }

  lemma CountTrueSnoc(flags: seq<bool>, b: bool)
    ensures CountTrue(flags + [b]) == CountTrue(flags) + (if b then 1 else 0)
  {
    assert (flags + [b])[..|flags|] == flags;
  }

  // ---------------------------------------------------------------- what indexing promises

  /** One insert-or-ignore makes known exactly the identities known before plus the row's. */
  lemma InsertKnown(t: Table, row: Row, x: Identity)
    requires ValidTable(t)
    ensures Known(AfterInsertOrIgnore(t, row).0, x) <==> Known(t, x) || x == Identity(row.hash, row.size)
  {
    var step := AfterInsertOrIgnore(t, row);
    if step.1 {
      if Known(step.0, x) {
        var id :| id in step.0.rows && step.0.rows[id].hash == x.hash && step.0.rows[id].size == x.size;
        if id != t.nextId {
          assert id in t.rows;
        }
      }
      if Known(t, x) {
        var id :| id in t.rows && t.rows[id].hash == x.hash && t.rows[id].size == x.size;
        assert id in step.0.rows && step.0.rows[id] == t.rows[id];
      }
      if x == Identity(row.hash, row.size) {
        assert step.0.rows[t.nextId] == row;
      }
    }
  }

  /** Rows already in the catalog are left exactly as they were; every added row is
      pending and carries the path of a file whose insert reported a change. */
  lemma IndexAllKeeps(t: Table, files: seq<string>, disk: Disk, hashFile: Bytes -> string, now: Timestamp)
    requires ValidTable(t) && AllReadable(files, disk)
    ensures var r := IndexAll(t, files, disk, hashFile, now);
      (forall id :: id in t.rows ==> id in r.0.rows && r.0.rows[id] == t.rows[id])
      && (forall id :: id in r.0.rows && id !in t.rows ==>
            r.0.rows[id].status == Pending && exists j :: 0 <= j < |files| && r.1[j] && r.0.rows[id].path == files[j])
  {
    IndexAllKeepsRows(t, files, disk, hashFile, now);
    IndexAllAdds(t, files, disk, hashFile, now);
    var r := IndexAll(t, files, disk, hashFile, now);
    forall id | id in r.0.rows && id !in t.rows
      ensures r.0.rows[id].status == Pending && exists j :: 0 <= j < |files| && r.1[j] && r.0.rows[id].path == files[j]
    {
      assert AddedFrom(r.0.rows[id], files, r.1);
    }
  }

  lemma {:induction false} IndexAllKeepsRows(t: Table, files: seq<string>, disk: Disk, hashFile: Bytes -> string, now: Timestamp)
    requires ValidTable(t) && AllReadable(files, disk)
    ensures var r := IndexAll(t, files, disk, hashFile, now);
      forall id :: id in t.rows ==> id in r.0.rows && r.0.rows[id] == t.rows[id]
  {
    if files != [] {
      var n := |files| - 1;
      assert AllReadable(files[..n], disk);
      IndexAllKeepsRows(t, files[..n], disk, hashFile, now);
    }
  }

  /** A row added by indexing: pending, with the path of a file whose insert reported a change. */
  predicate AddedFrom(row: Row, files: seq<string>, flags: seq<bool>) {
    row.status == Pending && exists j :: 0 <= j < |files| && j < |flags| && flags[j] && row.path == files[j]
  }

  lemma AddedFromExtend(row: Row, files: seq<string>, flags: seq<bool>, b: bool)
    requires files != [] && AddedFrom(row, files[..|files| - 1], flags)
    ensures AddedFrom(row, files, flags + [b])
  {
    var j :| 0 <= j < |files| - 1 && j < |flags| && flags[j] && row.path == files[..|files| - 1][j];
    assert (flags + [b])[j] && row.path == files[j];
  }

  lemma {:induction false} IndexAllAdds(t: Table, files: seq<string>, disk: Disk, hashFile: Bytes -> string, now: Timestamp)
    requires ValidTable(t) && AllReadable(files, disk)
    ensures var r := IndexAll(t, files, disk, hashFile, now);
      forall id :: id in r.0.rows && id !in t.rows ==> AddedFrom(r.0.rows[id], files, r.1)
  {
    if files != [] {
      var n := |files| - 1;
      IndexAllStep(t, files, n, disk, hashFile, now);
      assert files[..n + 1] == files;
      IndexAllAdds(t, files[..n], disk, hashFile, now);
      var prev := IndexAll(t, files[..n], disk, hashFile, now);
      var row := PendingRow(files[n], disk[files[n]], hashFile, now);
      var step := AfterInsertOrIgnore(prev.0, row);
      var r := IndexAll(t, files, disk, hashFile, now);
      assert r == (step.0, prev.1 + [step.1]);
      forall id | id in r.0.rows && id !in t.rows
        ensures AddedFrom(r.0.rows[id], files, r.1)
      {
        if id in prev.0.rows {
          AddedFromExtend(prev.0.rows[id], files, prev.1, step.1);
        } else {
          assert step.1 && id == prev.0.nextId;
          assert r.1[n] && r.0.rows[id] == row;
        }
      }
    }
  }

  /** After indexing, the identities the catalog knows are those it knew before plus
      those of the indexed files: every found file's (hash, size) is present. */
  lemma {:induction false} IndexAllKnown(t: Table, files: seq<string>, disk: Disk, hashFile: Bytes -> string, now: Timestamp, x: Identity)
    requires ValidTable(t) && AllReadable(files, disk)
    ensures Known(IndexAll(t, files, disk, hashFile, now).0, x) <==>
      Known(t, x) || exists j :: 0 <= j < |files| && FileIdentity(files[j], disk, hashFile) == x
  {
    if files != [] {
      var n := |files| - 1;
      assert AllReadable(files[..n], disk);
      IndexAllKnown(t, files[..n], disk, hashFile, now, x);
      var prev := IndexAll(t, files[..n], disk, hashFile, now);
      var row := PendingRow(files[n], disk[files[n]], hashFile, now);
      InsertKnown(prev.0, row, x);
      assert IndexAll(t, files, disk, hashFile, now).0 == AfterInsertOrIgnore(prev.0, row).0;
      assert Identity(row.hash, row.size) == FileIdentity(files[n], disk, hashFile);
      ghost var earlier := exists j :: 0 <= j < n && FileIdentity(files[j], disk, hashFile) == x;
      assert earlier <==> exists j :: 0 <= j < n && FileIdentity(files[..n][j], disk, hashFile) == x by {
        assert forall j :: 0 <= j < n ==> files[..n][j] == files[j];
      }
      assert (exists j :: 0 <= j < |files| && FileIdentity(files[j], disk, hashFile) == x) <==>
        earlier || FileIdentity(files[n], disk, hashFile) == x;
    }
  }

  /** A file's insert adds a row exactly when its (hash, size) was neither in the
      catalog nor among the files before it: of several files with the same content
      only the first one's path is stored. */
  lemma {:induction false} IndexAllFlags(t: Table, files: seq<string>, disk: Disk, hashFile: Bytes -> string, now: Timestamp, j: nat)
    requires ValidTable(t) && AllReadable(files, disk) && j < |files|
    ensures IndexAll(t, files, disk, hashFile, now).1[j] <==>
      !Known(t, FileIdentity(files[j], disk, hashFile))
      && forall i :: 0 <= i < j ==> FileIdentity(files[i], disk, hashFile) != FileIdentity(files[j], disk, hashFile)
    decreases |files|, 1
  {
    if j < |files| - 1 {
      IndexAllFlagsEarlier(t, files, disk, hashFile, now, j);
    } else {
      IndexAllFlagLast(t, files, disk, hashFile, now);
    }
  }

  lemma {:induction false} IndexAllFlagsEarlier(t: Table, files: seq<string>, disk: Disk, hashFile: Bytes -> string, now: Timestamp, j: nat)
    requires ValidTable(t) && AllReadable(files, disk) && j < |files| - 1
    ensures IndexAll(t, files, disk, hashFile, now).1[j] <==>
      !Known(t, FileIdentity(files[j], disk, hashFile))
      && forall i :: 0 <= i < j ==> FileIdentity(files[i], disk, hashFile) != FileIdentity(files[j], disk, hashFile)
    decreases |files|, 0
  {
    var n := |files| - 1;
    var front := files[..n];
    IndexAllFlagKept(t, files, disk, hashFile, now, j);
    IndexAllFlags(t, front, disk, hashFile, now, j);
    assert front[j] == files[j];
    UnseenInPrefix(files, n, j, disk, hashFile, FileIdentity(files[j], disk, hashFile));
  }

  /** The last file does not change the flags of the earlier ones. */
  lemma IndexAllFlagKept(t: Table, files: seq<string>, disk: Disk, hashFile: Bytes -> string, now: Timestamp, j: nat)
    requires ValidTable(t) && AllReadable(files, disk) && j < |files| - 1
    ensures AllReadable(files[..|files| - 1], disk)
    ensures IndexAll(t, files, disk, hashFile, now).1[j] == IndexAll(t, files[..|files| - 1], disk, hashFile, now).1[j]
  {
    var n := |files| - 1;
    IndexAllStep(t, files, n, disk, hashFile, now);
    assert files[..n + 1] == files;
  }

  lemma UnseenInPrefix(files: seq<string>, n: nat, j: nat, disk: Disk, hashFile: Bytes -> string, x: Identity)
    requires j <= n <= |files| && AllReadable(files, disk)
    ensures (forall i :: 0 <= i < j ==> files[..n][i] in disk && FileIdentity(files[..n][i], disk, hashFile) != x)
      <==> (forall i :: 0 <= i < j ==> FileIdentity(files[i], disk, hashFile) != x)
  {
    assert forall i :: 0 <= i < j ==> files[..n][i] == files[i];
  }

  lemma IndexAllFlagLast(t: Table, files: seq<string>, disk: Disk, hashFile: Bytes -> string, now: Timestamp)
    requires ValidTable(t) && AllReadable(files, disk) && files != []
    ensures var n := |files| - 1;
      IndexAll(t, files, disk, hashFile, now).1[n] <==>
      !Known(t, FileIdentity(files[n], disk, hashFile))
      && forall i :: 0 <= i < n ==> FileIdentity(files[i], disk, hashFile) != FileIdentity(files[n], disk, hashFile)
  {
    var n := |files| - 1;
    IndexAllStep(t, files, n, disk, hashFile, now);
    assert files[..n + 1] == files;
    var x := FileIdentity(files[n], disk, hashFile);
    var prev := IndexAll(t, files[..n], disk, hashFile, now);
    var row := PendingRow(files[n], disk[files[n]], hashFile, now);
    assert IndexAll(t, files, disk, hashFile, now).1[n] == AfterInsertOrIgnore(prev.0, row).1;
    IndexAllKnown(t, files[..n], disk, hashFile, now, x);
    assert forall i :: 0 <= i < n ==> files[..n][i] == files[i];
  }

  /** The number of inserted files is the number of rows the catalog gained. */
  lemma {:induction false} IndexAllGrowth(t: Table, files: seq<string>, disk: Disk, hashFile: Bytes -> string, now: Timestamp)
    requires ValidTable(t) && AllReadable(files, disk)
    ensures var r := IndexAll(t, files, disk, hashFile, now);
      |r.0.rows| == |t.rows| + CountTrue(r.1)
  {
    if files != [] {
      var n := |files| - 1;
      assert AllReadable(files[..n], disk);
      IndexAllGrowth(t, files[..n], disk, hashFile, now);
      var prev := IndexAll(t, files[..n], disk, hashFile, now);
      var step := AfterInsertOrIgnore(prev.0, PendingRow(files[n], disk[files[n]], hashFile, now));
      var flags := prev.1 + [step.1];
      assert flags[..|flags| - 1] == prev.1;
      if step.1 {
        assert prev.0.nextId !in prev.0.rows;
        assert step.0.rows.Keys == prev.0.rows.Keys + {prev.0.nextId};
      }
    }
  }

  /** Files whose identities the catalog already knows change no row; each ignored
      insert still uses up an id. */
  lemma {:induction false} IndexAllKnownFiles(t: Table, files: seq<string>, disk: Disk, hashFile: Bytes -> string, now: Timestamp)
    requires ValidTable(t) && AllReadable(files, disk)
    requires forall j :: 0 <= j < |files| ==> Known(t, FileIdentity(files[j], disk, hashFile))
    ensures IndexAll(t, files, disk, hashFile, now) == (t.(nextId := t.nextId + |files|), seq(|files|, _ => false))
  {
    if files != [] {
      var n := |files| - 1;
      assert AllReadable(files[..n], disk);
      IndexAllKnownFiles(t, files[..n], disk, hashFile, now);
      var prev := t.(nextId := t.nextId + n);
      var row := PendingRow(files[n], disk[files[n]], hashFile, now);
      assert Known(prev, FileIdentity(files[n], disk, hashFile));
      IgnoredInsert(prev, row);
      assert IndexAll(t, files, disk, hashFile, now) == (t.(nextId := t.nextId + |files|), seq(n, _ => false) + [false]);
      assert seq(n, _ => false) + [false] == seq(|files|, _ => false);
    } else {
      assert seq(|files|, _ => false) == [];
    }
  }

  /** Running the indexer again over the same files inserts nothing and leaves every
      row as the first run left it; only the id counter moves on, by one per file. */
  lemma ReindexChangesNothing(t: Table, files: seq<string>, disk: Disk, hashFile: Bytes -> string, now: Timestamp, later: Timestamp)
    requires ValidTable(t) && AllReadable(files, disk)
    ensures var first := IndexAll(t, files, disk, hashFile, now).0;
      IndexAll(first, files, disk, hashFile, later) == (first.(nextId := first.nextId + |files|), seq(|files|, _ => false))
  {
    var first := IndexAll(t, files, disk, hashFile, now).0;
    forall j | 0 <= j < |files| ensures Known(first, FileIdentity(files[j], disk, hashFile)) {
      IndexAllKnown(t, files, disk, hashFile, now, FileIdentity(files[j], disk, hashFile));
    }
    IndexAllKnownFiles(first, files, disk, hashFile, later);
  }
}
