/** The original single-file uploader, src/index.ts: its own extension list, an
    indexer that prints an `Indexed` line every hundred files, a single-pass upload
    over the unsynchronized rows in id order with no retry, and the command dispatch
    of `main`. The catalog statements are those of the `Db` module; the walk, hash and
    upload are given as in the `Update` and `Post` modules. */
module Legacy {
  import opened Wrappers
  import opened Types
  import opened Text
  import opened Constants
  import opened Content
  import opened Media
  import opened Db
  import opened Update
  import opened Post

  // ---------------------------------------------------------------- classification

  /** `IMAGE_EXTENSIONS`: one list for stills and videos. */
  const IMAGE_EXTENSIONS: seq<string> := [
    ".jpg", ".jpeg", ".png", ".gif", ".bmp", ".webp", ".heic",
    ".cr2", ".cr3", ".crw",
    ".fit", ".fits", ".fts", ".dcm", ".nii", ".nii.gz", ".tif", ".tiff",
    ".mp4", ".mov", ".avi", ".mkv", ".webm", ".wmv", ".flv", ".m4v", ".3gp", ".mts", ".ts", ".m2ts", ".mpeg", ".mpg"
  ]

  function LegacyIsMediaFile(filePath: string): bool {
    AnyEndsWith(Lower(filePath), IMAGE_EXTENSIONS)
  }

  /** The legacy list is the media list of src/constants.ts, entry for entry, so both
      entry points classify every path alike and walk a tree alike. */
  lemma LegacyClassificationAgrees(filePath: string)
    ensures IMAGE_EXTENSIONS == MEDIA_EXTENSIONS
    ensures LegacyIsMediaFile(filePath) == IsMediaFile(filePath)
  {
  }

  // ---------------------------------------------------------------- update

  /** `index % 100 === 0 || index === files.length`. */
  predicate ReportsAt(index: nat, total: nat) {
    index % 100 == 0 || index == total
  }

  function IndexedLine(index: nat, total: nat): string {
    "Indexed " + NatToString(index) + "/" + NatToString(total) + " files."
  }

  /** What `runUpdate` prints after the `index`-th file. */
  function LinesAt(index: nat, total: nat): seq<string> {
    if ReportsAt(index, total) then [IndexedLine(index, total)] else []
  }

  /** The `Indexed` lines printed for the first `k` files of `total`. */
  function IndexedLines(k: nat, total: nat): seq<string> {
    if k == 0 then [] else IndexedLines(k - 1, total) + LinesAt(k, total)
  }

  /** Before the last file, a line is printed for every hundredth file. */
  lemma {:induction false} IndexedLinesBefore(k: nat, total: nat)
    requires k < total
    ensures |IndexedLines(k, total)| == k / 100
    ensures forall i :: 0 <= i < |IndexedLines(k, total)| ==> IndexedLines(k, total)[i] == IndexedLine(100 * (i + 1), total)
  {
    if k > 0 {
      IndexedLinesBefore(k - 1, total);
      assert k / 100 == (k - 1) / 100 + (if k % 100 == 0 then 1 else 0);
      if k % 100 == 0 {
        assert 100 * (k / 100) == k;
      }
    }
  }

  /** A complete run prints one line per hundred files and one for the last file,
      which is not repeated when the count is a multiple of a hundred. */
  lemma IndexedLinesComplete(total: nat)
    requires total > 0
    ensures |IndexedLines(total, total)| == (if total % 100 == 0 then total / 100 else total / 100 + 1)
    ensures IndexedLines(total, total)[|IndexedLines(total, total)| - 1] == IndexedLine(total, total)
  {
    IndexedLinesBefore(total - 1, total);
    assert total / 100 == (total - 1) / 100 + (if total % 100 == 0 then 1 else 0);
  }

  /** `runUpdate(targetFolder, dbPath)` of src/index.ts. Same statements as the indexer
      of src/commands/update.ts; its progress goes to `indexed`. */
  method LegacyRunUpdate(targetFolder: string, tree: Option<Entry>, stored: Option<Table>,
                         disk: Disk, xxh64: Bytes -> U64, now: Timestamp)
    returns (result: Result<UpdateCounts, UpdateError>, persisted: Option<Table>, indexed: seq<string>)
    requires stored.Some? ==> ValidTable(stored.value)
    ensures !(tree.Some? && IsDirectory(tree.value)) ==>
      result == Err(TargetNotDirectory(targetFolder)) && persisted == stored && indexed == []
    ensures tree.Some? && IsDirectory(tree.value) && WalkError(tree.value).Some? ==>
      result == Err(WalkFailed(WalkError(tree.value).value)) && persisted == Some(stored.GetOr(EMPTY)) && indexed == []
    ensures tree.Some? && IsDirectory(tree.value) && WalkError(tree.value).None? ==>
      var files := EntryMediaFiles(tree.value);
      var outcome := IndexOutcome(stored.GetOr(EMPTY), files, disk, Hasher(xxh64), now);
      persisted == Some(outcome.0) && result == outcome.1 && indexed == IndexedLines(ReadablePrefix(files, disk), |files|)
  {
    indexed := [];
    if !(tree.Some? && IsDirectory(tree.value)) {
      return Err(TargetNotDirectory(targetFolder)), stored, indexed;
    }
    var catalog := new Catalog.Open(stored);
    var walk := GetAllImageFiles(tree.value);
    if walk.Err? {
      return Err(WalkFailed(walk.error)), Some(catalog.Contents()), indexed;
    }
    var files := walk.value;
    result, indexed := LegacyIndexFiles(catalog, files, disk, Hasher(xxh64), now);
    persisted := Some(catalog.Contents());
  }

  /** The `for` loop of the legacy `runUpdate`, with its `Indexed` lines. */
  method LegacyIndexFiles(catalog: Catalog, files: seq<string>, disk: Disk, hashFile: Bytes -> string, now: Timestamp)
    returns (result: Result<UpdateCounts, UpdateError>, indexed: seq<string>)
    requires catalog.Valid()
    modifies catalog
    ensures catalog.Valid()
    ensures (catalog.Contents(), result) == IndexOutcome(old(catalog.Contents()), files, disk, hashFile, now)
    ensures indexed == IndexedLines(ReadablePrefix(files, disk), |files|)
  {
    ghost var start := catalog.Contents();
    ghost var flags: seq<bool> := [];
    var inserted, skipped := 0, 0;
    indexed := [];

    var index := 0;
    while index < |files|
      invariant index <= |files| && AllReadable(files[..index], disk) && catalog.Valid()
      invariant (catalog.Contents(), flags) == IndexAll(start, files[..index], disk, hashFile, now)
      invariant inserted == CountTrue(flags) && inserted + skipped == index
      invariant indexed == IndexedLines(index, |files|)
    {
      var filePath := files[index];
      if filePath !in disk {
        OutcomeStopped(start, files, disk, hashFile, now, index);
        return Err(FileUnreadable(filePath)), indexed;
      }
      inserted, skipped, indexed, flags := IndexNext(catalog, files, index, disk, hashFile, now, inserted, skipped, indexed, start, flags);
      index := index + 1;
    }
    assert files[..index] == files;
    OutcomeFinished(start, files, disk, hashFile, now);
    return Ok(UpdateCounts(inserted, skipped)), indexed;
  }

  /** One pass of the indexing loop: `insertStmt.run(filePath, hash, size, nowIso())`,
      the counters, and the `Indexed` line when one is due. */
  method IndexNext(catalog: Catalog, files: seq<string>, index: nat, disk: Disk, hashFile: Bytes -> string,
                   now: Timestamp, inserted: nat, skipped: nat, indexed: seq<string>, ghost start: Table,
                   ghost flags: seq<bool>)
    returns (inserted': nat, skipped': nat, indexed': seq<string>, ghost flags': seq<bool>)
    requires catalog.Valid() && index < |files| && files[index] in disk
    requires ValidTable(start) && AllReadable(files[..index], disk)
    requires (catalog.Contents(), flags) == IndexAll(start, files[..index], disk, hashFile, now)
    requires inserted == CountTrue(flags) && inserted + skipped == index
    requires indexed == IndexedLines(index, |files|)
    modifies catalog
    ensures catalog.Valid() && AllReadable(files[..index + 1], disk)
    ensures (catalog.Contents(), flags') == IndexAll(start, files[..index + 1], disk, hashFile, now)
    ensures inserted' == CountTrue(flags') && inserted' + skipped' == index + 1
    ensures indexed' == IndexedLines(index + 1, |files|)
  {
    var added;
    added, flags' := InsertFile(catalog, files, index, disk, hashFile, now, start, flags);
    if added {
      inserted', skipped' := inserted + 1, skipped;
    } else {
      inserted', skipped' := inserted, skipped + 1;
    }
    indexed' := indexed + LinesAt(index + 1, |files|);
  }

  // ---------------------------------------------------------------- post

  /** The catalog after one attempt per row, the `count`-th attempt at `clock(count)`. */
  function SinglePass(t: Table, rows: seq<ImageRow>, attempt: (nat, ImageRow) -> Attempt,
                      clock: nat -> Timestamp): (r: Table)
    requires ValidTable(t)
    ensures ValidTable(r) && r.nextId == t.nextId && r.rows.Keys == t.rows.Keys
  {
    if rows == [] then t
    else
      var n := |rows| - 1;
      Recorded(SinglePass(t, rows[..n], attempt, clock), rows[n].id, attempt(n + 1, rows[n]), clock(n + 1))
  }

  /** `runPost(dbPath)` of src/index.ts: every unsynchronized row, in id order, gets one
      existence check and at most one upload, and its result is written back. */
  method LegacyRunPost(stored: Option<Table>, attempt: (nat, ImageRow) -> Attempt, clock: nat -> Timestamp)
    returns (persisted: Table)
    requires stored.Some? ==> ValidTable(stored.value)
    ensures var t := stored.GetOr(EMPTY);
      persisted == SinglePass(t, SelectUnsynchronizedById(t), attempt, clock)
  {
    var catalog := new Catalog.Open(stored);
    ghost var start := catalog.Contents();
    var rows := SelectUnsynchronizedById(catalog.Contents());
    var count := 0;
    while count < |rows|
      invariant count <= |rows| && catalog.Valid()
      invariant catalog.Contents() == SinglePass(start, rows[..count], attempt, clock)
    {
      var row := rows[count];
      count := count + 1;
      var a := attempt(count, row);
      RecordAttempt(catalog, row.id, a, clock(count));
      assert rows[..count][..count - 1] == rows[..count - 1];
    }
    assert rows[..count] == rows;
    persisted := catalog.Contents();
  }

  /** A row no attempt is about is left as it was. */
  lemma {:induction false} SinglePassUntouched(t: Table, rows: seq<ImageRow>, attempt: (nat, ImageRow) -> Attempt,
                                               clock: nat -> Timestamp, id: nat)
    requires ValidTable(t) && id in t.rows
    requires forall k :: 0 <= k < |rows| ==> rows[k].id != id
    ensures SinglePass(t, rows, attempt, clock).rows[id] == t.rows[id]
  {
    if rows != [] {
      var n := |rows| - 1;
      assert forall k :: 0 <= k < n ==> rows[..n][k] == rows[k];
      SinglePassUntouched(t, rows[..n], attempt, clock, id);
    }
  }

  /** Over rows with distinct ids, each row is left as its single attempt wrote it. */
  lemma {:induction false} SinglePassAttempted(t: Table, rows: seq<ImageRow>, attempt: (nat, ImageRow) -> Attempt,
                                               clock: nat -> Timestamp, k: nat)
    requires ValidTable(t) && k < |rows| && rows[k].id in t.rows
    requires forall i, j :: 0 <= i < j < |rows| ==> rows[i].id != rows[j].id
    ensures SinglePass(t, rows, attempt, clock).rows[rows[k].id]
      == AttemptEffect(t.rows[rows[k].id], attempt(k + 1, rows[k]), clock(k + 1))
  {
    var n := |rows| - 1;
    var prefix := rows[..n];
    var prev := SinglePass(t, prefix, attempt, clock);
    assert SinglePass(t, rows, attempt, clock) == Recorded(prev, rows[n].id, attempt(n + 1, rows[n]), clock(n + 1));
    if k == n {
      assert forall i :: 0 <= i < n ==> prefix[i].id != rows[k].id;
      SinglePassUntouched(t, prefix, attempt, clock, rows[k].id);
    } else {
      assert prefix[k] == rows[k] && rows[n].id != rows[k].id;
      SinglePassAttempted(t, prefix, attempt, clock, k);
    }
  }

  /** The legacy upload's promise: the rows already uploaded are untouched, and every
      other row was attempted exactly once, at its place in id order, with its columns
      as that one attempt wrote them: uploaded on success, failed otherwise. */
  lemma LegacyPostRows(t0: Table, attempt: (nat, ImageRow) -> Attempt, clock: nat -> Timestamp)
    requires ValidTable(t0)
    ensures var S := SelectUnsynchronizedById(t0);
      var r := SinglePass(t0, S, attempt, clock);
      ValidTable(r) && r.nextId == t0.nextId && r.rows.Keys == t0.rows.Keys
      && (forall id :: id in t0.rows && t0.rows[id].status == Uploaded ==> r.rows[id] == t0.rows[id])
      && (forall k :: 0 <= k < |S| ==>
            S[k].id in t0.rows && r.rows[S[k].id] == AttemptEffect(t0.rows[S[k].id], attempt(k + 1, S[k]), clock(k + 1)))
  {
    var S := SelectUnsynchronizedById(t0);
    SelectUnsynchronizedByIdIsSelection(t0);
    forall i, j | 0 <= i < j < |S|
      ensures S[i].id != S[j].id
    {
      assert OrderedBefore(t0, S[i], S[j], false);
    }
    var r := SinglePass(t0, S, attempt, clock);
    forall id | id in t0.rows && t0.rows[id].status == Uploaded
      ensures r.rows[id] == t0.rows[id]
    {
      SinglePassUntouched(t0, S, attempt, clock, id);
    }
    forall k | 0 <= k < |S|
      ensures r.rows[S[k].id] == AttemptEffect(t0.rows[S[k].id], attempt(k + 1, S[k]), clock(k + 1))
    {
      SinglePassAttempted(t0, S, attempt, clock, k);
    }
  }

  // ---------------------------------------------------------------- main

  const DB_FILE_NAME: string := "immich_toys.db"
  const USAGE_EXIT_CODE: int := 1
  const USAGE: seq<string> := [
    "Usage:",
    "  yarn start update <TARGET_FOLDER> [DB_PATH]",
    "  yarn start post [DB_PATH]"
  ]

  /** What `main` does with `process.argv`: run a command, or print `USAGE` and exit
      with `USAGE_EXIT_CODE`. */
  datatype Invocation =
    | InvokeUpdate(targetFolder: string, dbPath: string)
    | InvokePost(dbPath: string)
    | Usage

  /** `process.argv[i] ?? fallback`. */
  function ArgOr(argv: seq<string>, i: nat, fallback: string): string {
    if i < |argv| then argv[i] else fallback
  }

  /** `main()`. `argv` is `process.argv` (runtime and script first); `resolve` is
      `path.resolve`, also applied to the default `immich_toys.db`. */
  function Dispatch(argv: seq<string>, resolve: string -> string): (r: Invocation)
    ensures r.InvokeUpdate? <==> |argv| > 3 && argv[2] == "update" && argv[3] != ""
    ensures r.InvokePost? <==> |argv| > 2 && argv[2] == "post"
    ensures r.Usage? <==> |argv| <= 2 || (argv[2] != "update" && argv[2] != "post") || (argv[2] == "update" && (|argv| <= 3 || argv[3] == ""))
    ensures r.InvokeUpdate? ==> r.targetFolder == resolve(argv[3])
    ensures r.InvokeUpdate? ==> r.dbPath == resolve(ArgOr(argv, 4, resolve(DB_FILE_NAME)))
    ensures r.InvokePost? ==> r.dbPath == resolve(ArgOr(argv, 3, resolve(DB_FILE_NAME)))
  {
    var command := ArgOr(argv, 2, "");
    if |argv| > 2 && command == "update" then
      var targetFolder := ArgOr(argv, 3, "");
      var dbPath := resolve(ArgOr(argv, 4, resolve(DB_FILE_NAME)));
      if targetFolder == "" then Usage else InvokeUpdate(resolve(targetFolder), dbPath)
    else if |argv| > 2 && command == "post" then
      InvokePost(resolve(ArgOr(argv, 3, resolve(DB_FILE_NAME))))
    else Usage
  }
}
