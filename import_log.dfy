/** The log reconciler, `runImportLog` (src/commands/import-log.ts): replays the
    entries the log parser found into the catalog. For each entry, in order, it first
    marks uploaded every row stored under the entry's path; when there is none it checks
    that the file exists, and then hashes it and inserts an uploaded row with
    `INSERT OR IGNORE`.

    The file system is given as `Env`: `present` is what `fs.existsSync` reports (files
    and directories alike), `disk` the regular files and their bytes, `hashFile` the
    content hash, and `clock(n)` the `nowIso()` taken for the `n`-th entry. */
module ImportLog {
  import opened Wrappers
  import opened Types
  import opened Content
  import opened Db
  import opened Text
  import opened LogParser

  /** `maxMissingLog`: how many missing files are reported one by one. */
  const MAX_MISSING_LOG: nat := 20
  const NOT_FOUND_NOTICE: string := "Skip import (file not found): "
  const SUPPRESSED_NOTICE: string := "Skip import logs are suppressed after 20 missing files."

  datatype Env = Env(present: set<string>, disk: Disk, hashFile: Bytes -> string, clock: nat -> Timestamp)

  /** What happened to one entry: its path was in the catalog, its file was missing,
      or its row was inserted or ignored as a duplicate of a known (hash, size). */
  datatype Outcome = Marked | Missing | Inserted | Ignored

  datatype ImportError =
    | LogError(error: ParseError)         // `parseCompletedEntriesFromLog` throwing
    | FileUnreadable(filePath: string)    // a path that exists but `statSync`/`hashFile` cannot read

  /** The figures of the closing `Import-log completed` line. */
  datatype ImportCounts = ImportCounts(parsed: nat, marked: nat, inserted: nat, missing: nat)

  /** The row `insertUploadedStmt.run(path, hash, size, statusCode, now, now)` tries to add. */
  function UploadedRow(e: CompletedLogEntry, content: Bytes, hashFile: Bytes -> string, now: Timestamp): (r: Row)
    ensures r.status == Uploaded && r.path == e.path && r.statusCode == e.statusCode
    ensures r.hash == hashFile(content) && r.size == |content|
    ensures r.uploadedAt == Some(now) && r.lastError.None? && r.updatedAt == now
  {
    NewRow(e.path, hashFile(content), |content|, Some(Uploaded), e.statusCode, Some(now), now)
  }

  /** One entry, the `processed`-th: the new catalog and the outcome, or `None` when
      the path exists but cannot be read and the run throws. */
  function ImportEntry(t: Table, e: CompletedLogEntry, processed: nat, env: Env): (r: Option<(Table, Outcome)>)
    requires ValidTable(t)
    ensures r.Some? ==> ValidTable(r.value.0) && r.value.0.rows.Keys >= t.rows.Keys
    ensures r.None? <==> !HasPath(t.rows, e.path) && e.path in env.present && e.path !in env.disk
    ensures r.Some? ==> (r.value.1 == Marked <==> HasPath(t.rows, e.path))
    ensures r.Some? && r.value.1 == Missing ==> e.path !in env.present && r.value.0 == t
    ensures r.Some? && r.value.1 == Ignored ==> r.value.0 == t.(nextId := t.nextId + 1)
    ensures r.Some? && r.value.1 == Inserted ==>
      e.path in env.disk && r.value.0.rows.Keys == t.rows.Keys + {t.nextId}
      && r.value.0.rows[t.nextId] == UploadedRow(e, env.disk[e.path], env.hashFile, env.clock(processed))
  {
    var now := env.clock(processed);
    var (marked, changes) := AfterMarkUploadedByPath(t, e.path, e.statusCode, now);
    if changes > 0 then Some((marked, Marked))
    else if e.path !in env.present then Some((t, Missing))
    else if e.path !in env.disk then None
    else
      var (t', added) := AfterInsertOrIgnore(t, UploadedRow(e, env.disk[e.path], env.hashFile, now));
      Some((t', if added then Inserted else Ignored))
  }

  /** The state of the reconciler after some entries: the catalog, one outcome per
      entry processed, and the path the run stopped at, if it stopped. */
  datatype Pass = Pass(table: Table, outcomes: seq<Outcome>, halted: Option<string>)

  function ImportAll(t: Table, entries: seq<CompletedLogEntry>, env: Env): (r: Pass)
    requires ValidTable(t)
    ensures ValidTable(r.table) && r.table.rows.Keys >= t.rows.Keys
    ensures r.halted.None? ==> |r.outcomes| == |entries|
    ensures r.halted.Some? ==> |r.outcomes| < |entries| && r.halted.value == entries[|r.outcomes|].path
  {
    if entries == [] then Pass(t, [], None)
    else
      var n := |entries| - 1;
      var prev := ImportAll(t, entries[..n], env);
      if prev.halted.Some? then prev
      else match ImportEntry(prev.table, entries[n], n + 1, env)
        case None => prev.(halted := Some(entries[n].path))
        case Some((t', o)) => Pass(t', prev.outcomes + [o], None)
  }

  lemma ImportAllStep(t: Table, entries: seq<CompletedLogEntry>, i: nat, env: Env)
    requires ValidTable(t) && i < |entries|
    requires ImportAll(t, entries[..i], env).halted.None?
    ensures var prev := ImportAll(t, entries[..i], env);
      ImportAll(t, entries[..i + 1], env) ==
        match ImportEntry(prev.table, entries[i], i + 1, env)
        case None => prev.(halted := Some(entries[i].path))
        case Some((t', o)) => Pass(t', prev.outcomes + [o], None)
  {
    assert entries[..i + 1][..i] == entries[..i];
  }

  /** How many outcomes are `o`. */
  function Count(outcomes: seq<Outcome>, o: Outcome): (n: nat)
    ensures n <= |outcomes|
  {
    if outcomes == [] then 0
    else Count(outcomes[..|outcomes| - 1], o) + (if outcomes[|outcomes| - 1] == o then 1 else 0)
  }

  /** The paths of the entries found missing, in order. */
  function MissingPaths(entries: seq<CompletedLogEntry>, outcomes: seq<Outcome>): (r: seq<string>)
    requires |outcomes| <= |entries|
    ensures |r| == Count(outcomes, Missing)
  {
    if outcomes == [] then []
    else
      var n := |outcomes| - 1;
      MissingPaths(entries, outcomes[..n]) + (if outcomes[n] == Missing then [entries[n].path] else [])
  }

  /** The notice written when the `missing`-th missing file is met. */
  function MissingNotice(missing: nat, filePath: string): seq<string> {
    if missing <= MAX_MISSING_LOG then [NOT_FOUND_NOTICE + filePath]
    else if missing == MAX_MISSING_LOG + 1 then [SUPPRESSED_NOTICE]
    else []
  }

  /** The notices written for a run of missing files, one at a time. */
  function Notices(missing: seq<string>): seq<string> {
    if missing == [] then []
    else Notices(missing[..|missing| - 1]) + MissingNotice(|missing|, missing[|missing| - 1])
  }

  /** What importing `entries` into `t` leaves: the result the run reports (the counts
      when every entry went through, or the path of the file that could not be read),
      the catalog and the notices written. */
  function ImportOutcome(t: Table, entries: seq<CompletedLogEntry>, env: Env)
    : (Result<ImportCounts, ImportError>, Table, seq<string>)
    requires ValidTable(t)
  {
    var pass := ImportAll(t, entries, env);
    var result := match pass.halted
      case Some(filePath) => Err(FileUnreadable(filePath))
      case None => Ok(ImportCounts(|entries|, Count(pass.outcomes, Marked),
                                   Count(pass.outcomes, Inserted), Count(pass.outcomes, Missing)));
    (result, pass.table, Notices(MissingPaths(entries, pass.outcomes)))
  }

  // ---------------------------------------------------------------- the command

  /** `runImportLog(logPath, dbPath)`. The catalog is opened first, so it exists even
      when the log does not. `log` is the log file's text (absent when it is not a
      regular file), `resolve` is `path.resolve`; `present` and `disk` are the files
      that exist and those that can be read, `xxh64` the 64-bit xxHash and `clock(n)`
      the `nowIso()` of the `n`-th entry. Returns the outcome, the catalog file
      afterwards and the notices written to the error stream. */
  method RunImportLog(logPath: string, log: Option<string>, resolve: string -> string,
                      stored: Option<Table>, present: set<string>, disk: Disk, xxh64: Bytes -> U64,
                      clock: nat -> Timestamp)
    returns (result: Result<ImportCounts, ImportError>, persisted: Table, notices: seq<string>)
    requires stored.Some? ==> ValidTable(stored.value)
    ensures log.None? ==>
      result == Err(LogError(LogFileNotFound(logPath))) && persisted == stored.GetOr(EMPTY) && notices == []
    ensures log.Some? ==>
      (result, persisted, notices) ==
        ImportOutcome(stored.GetOr(EMPTY), CompletedEntries(log.value, resolve), Env(present, disk, Hasher(xxh64), clock))
  {
    var catalog := new Catalog.Open(stored);
    var parsed := ParseCompletedEntriesFromLog(logPath, log, resolve);
    if parsed.Err? {
      return Err(LogError(parsed.error)), catalog.Contents(), [];
    }
    result, notices := ImportEntries(catalog, parsed.value, Env(present, disk, Hasher(xxh64), clock));
    persisted := catalog.Contents();
  }

  /** The `for` loop of `runImportLog`. */
  method ImportEntries(catalog: Catalog, entries: seq<CompletedLogEntry>, env: Env)
    returns (result: Result<ImportCounts, ImportError>, notices: seq<string>)
    requires catalog.Valid()
    modifies catalog
    ensures catalog.Valid()
    ensures (result, catalog.Contents(), notices) == ImportOutcome(old(catalog.Contents()), entries, env)
  {
    ghost var start := catalog.Contents();
    ghost var outcomes: seq<Outcome> := [];
    var marked, inserted, missing := 0, 0, 0;
    notices := [];
    var processed := 0;
    while processed < |entries|
      invariant processed <= |entries| && catalog.Valid()
      invariant ImportAll(start, entries[..processed], env) == Pass(catalog.Contents(), outcomes, None)
      invariant marked == Count(outcomes, Marked) && inserted == Count(outcomes, Inserted)
      invariant missing == Count(outcomes, Missing)
      invariant notices == Notices(MissingPaths(entries, outcomes))
    {
      var entry := entries[processed];
      ImportAllStep(start, entries, processed, env);
      processed := processed + 1;
      var outcome := ImportOne(catalog, entry, processed, env);
      if outcome.None? {
        assert ImportAll(start, entries[..processed], env).halted == Some(entry.path);
        ImportAllHalted(start, entries, processed, env);
        return Err(FileUnreadable(entry.path)), notices;
      }
      var m, i, ms, ns := Tally(outcome.value, entry.path, marked, inserted, missing, notices);
      TallyKeepsCounts(entries, outcomes, outcome.value, marked, inserted, missing, notices, m, i, ms, ns);
      marked, inserted, missing, notices := m, i, ms, ns;
      outcomes := outcomes + [outcome.value];
    }
    assert entries[..processed] == entries;
    return Ok(ImportCounts(|entries|, marked, inserted, missing)), notices;
  }

  /** The counting at the end of each pass of the loop, and the warning for a missing
      file: reported by path up to `maxMissingLog`, then once as suppressed. */
  method Tally(o: Outcome, filePath: string, marked: nat, inserted: nat, missing: nat, notices: seq<string>)
    returns (newMarked: nat, newInserted: nat, newMissing: nat, newNotices: seq<string>)
    ensures newMarked == marked + (if o == Marked then 1 else 0)
    ensures newInserted == inserted + (if o == Inserted then 1 else 0)
    ensures newMissing == missing + (if o == Missing then 1 else 0)
    ensures newNotices == notices + (if o == Missing then MissingNotice(missing + 1, filePath) else [])
  {
    newMarked, newInserted, newMissing, newNotices := marked, inserted, missing, notices;
    match o {
      case Marked => newMarked := marked + 1;
      case Missing =>
        newMissing := missing + 1;
        if newMissing <= MAX_MISSING_LOG {
          newNotices := notices + [NOT_FOUND_NOTICE + filePath];
        } else if newMissing == MAX_MISSING_LOG + 1 {
          newNotices := notices + [SUPPRESSED_NOTICE];
        }
      case Inserted => newInserted := inserted + 1;
      case Ignored =>
    }
  }

  lemma Tallied(entries: seq<CompletedLogEntry>, outcomes: seq<Outcome>, o: Outcome)
    requires |outcomes| < |entries|
    ensures forall x :: Count(outcomes + [o], x) == Count(outcomes, x) + if o == x then 1 else 0
    ensures var missing := MissingPaths(entries, outcomes);
      Notices(MissingPaths(entries, outcomes + [o])) ==
        Notices(missing) + if o == Missing then MissingNotice(|missing| + 1, entries[|outcomes|].path) else []
  {
    forall x {
      CountSnoc(outcomes, o, x);
    }
    NoticesSnoc(entries, outcomes, o);
  }

  /** One more outcome adds one to its own count. */
  lemma CountSnoc(outcomes: seq<Outcome>, o: Outcome, x: Outcome)
    ensures Count(outcomes + [o], x) == Count(outcomes, x) + if o == x then 1 else 0
  {
    assert (outcomes + [o])[..|outcomes|] == outcomes;
  }

  /** One more missing file adds its notice; any other outcome adds none. */
  lemma NoticesSnoc(entries: seq<CompletedLogEntry>, outcomes: seq<Outcome>, o: Outcome)
    requires |outcomes| < |entries|
    ensures var missing := MissingPaths(entries, outcomes);
      Notices(MissingPaths(entries, outcomes + [o])) ==
        Notices(missing) + if o == Missing then MissingNotice(|missing| + 1, entries[|outcomes|].path) else []
  {
    var outcomes' := outcomes + [o];
    assert outcomes'[..|outcomes'| - 1] == outcomes;
    var missing := MissingPaths(entries, outcomes);
    if o == Missing {
      var missing' := missing + [entries[|outcomes|].path];
      assert MissingPaths(entries, outcomes') == missing';
      assert missing'[..|missing'| - 1] == missing;
      assert Notices(missing') == Notices(missing) + MissingNotice(|missing'|, entries[|outcomes|].path);
    } else {
      assert MissingPaths(entries, outcomes') == missing;
    }
  }


  /** What `Tally` computes from the counts and notices of some outcomes is the counts
      and notices of those outcomes and one more. */
  lemma TallyKeepsCounts(entries: seq<CompletedLogEntry>, outcomes: seq<Outcome>, o: Outcome,
                         marked: nat, inserted: nat, missing: nat, notices: seq<string>,
                         newMarked: nat, newInserted: nat, newMissing: nat, newNotices: seq<string>)
    requires |outcomes| < |entries|
    requires marked == Count(outcomes, Marked) && inserted == Count(outcomes, Inserted)
    requires missing == Count(outcomes, Missing) && notices == Notices(MissingPaths(entries, outcomes))
    requires newMarked == marked + (if o == Marked then 1 else 0)
    requires newInserted == inserted + (if o == Inserted then 1 else 0)
    requires newMissing == missing + (if o == Missing then 1 else 0)
    requires newNotices == notices + (if o == Missing then MissingNotice(missing + 1, entries[|outcomes|].path) else [])
    ensures newMarked == Count(outcomes + [o], Marked) && newInserted == Count(outcomes + [o], Inserted)
    ensures newMissing == Count(outcomes + [o], Missing)
    ensures newNotices == Notices(MissingPaths(entries, outcomes + [o]))
  {
    CountSnoc(outcomes, o, Marked);
    CountSnoc(outcomes, o, Inserted);
    CountSnoc(outcomes, o, Missing);
    assert newNotices == Notices(MissingPaths(entries, outcomes + [o])) by {
      NoticesSnoc(entries, outcomes, o);
      assert |MissingPaths(entries, outcomes)| == missing;
    }
  }

  /** Once the run stops, the entries after it change nothing. */
  lemma {:induction false} ImportAllHalted(t: Table, entries: seq<CompletedLogEntry>, i: nat, env: Env)
    requires ValidTable(t) && i <= |entries|
    requires ImportAll(t, entries[..i], env).halted.Some?
    ensures ImportAll(t, entries, env) == ImportAll(t, entries[..i], env)
    decreases |entries| - i
  {
    if i < |entries| {
      assert entries[..i + 1][..i] == entries[..i];
      ImportAllHalted(t, entries, i + 1, env);
    } else {
      assert entries[..i] == entries;
    }
  }

  /** The body of the loop for one entry: the path update, then the existence check,
      then the hash and insert. */
  method ImportOne(catalog: Catalog, entry: CompletedLogEntry, processed: nat, env: Env)
    returns (outcome: Option<Outcome>)
    requires catalog.Valid()
    modifies catalog
    ensures catalog.Valid()
    ensures var r := ImportEntry(old(catalog.Contents()), entry, processed, env);
      (r.None? ==> outcome.None? && catalog.Contents() == old(catalog.Contents()))
      && (r.Some? ==> outcome == Some(r.value.1) && catalog.Contents() == r.value.0)
  {
    var timestamp := env.clock(processed);
    var changes := catalog.MarkUploadedByPath(entry.path, entry.statusCode, timestamp);
    if changes > 0 {
      return Some(Marked);
    }
    if entry.path !in env.present {
      return Some(Missing);
    }
    if entry.path !in env.disk {
      return None;
    }
    var content := env.disk[entry.path];
    var row := NewRow(entry.path, env.hashFile(content), |content|, Some(Uploaded), entry.statusCode, Some(timestamp), timestamp);
    assert row == UploadedRow(entry, content, env.hashFile, timestamp);
    var added := catalog.InsertOrIgnore(row);
    outcome := Some(if added > 0 then Inserted else Ignored);
  }

  // ---------------------------------------------------------------- what reconciling promises

  /** Every processed entry has exactly one outcome; marked, missing and inserted add
      up to the number of entries processed exactly when no insert was ignored. */
  lemma {:induction false} CountsAddUp(outcomes: seq<Outcome>)
    ensures Count(outcomes, Marked) + Count(outcomes, Missing) + Count(outcomes, Inserted) + Count(outcomes, Ignored)
      == |outcomes|
  {
    if outcomes != [] {
      CountsAddUp(outcomes[..|outcomes| - 1]);
    }
  }

  /** The closing line of a finished run: `marked + missing + inserted <= parsed`, with
      equality exactly when no insert was ignored. */
  lemma ImportCountsBound(t: Table, entries: seq<CompletedLogEntry>, env: Env)
    requires ValidTable(t)
    ensures var pass := ImportAll(t, entries, env);
      pass.halted.None? ==>
        Count(pass.outcomes, Marked) + Count(pass.outcomes, Missing) + Count(pass.outcomes, Inserted) <= |entries|
        && (Count(pass.outcomes, Marked) + Count(pass.outcomes, Missing) + Count(pass.outcomes, Inserted) == |entries|
            <==> Count(pass.outcomes, Ignored) == 0)
  {
    CountsAddUp(ImportAll(t, entries, env).outcomes);
  }

  /** Missing files are reported one by one for the first 20; the 21st gives a single
      notice that further ones are suppressed, and after that nothing is written. */
  lemma {:induction false} NoticesLimited(missing: seq<string>)
    ensures |Notices(missing)| == if |missing| <= MAX_MISSING_LOG then |missing| else MAX_MISSING_LOG + 1
    ensures forall i :: 0 <= i < |missing| && i < MAX_MISSING_LOG ==> Notices(missing)[i] == NOT_FOUND_NOTICE + missing[i]
    ensures |missing| > MAX_MISSING_LOG ==> Notices(missing)[MAX_MISSING_LOG] == SUPPRESSED_NOTICE
  {
    if missing != [] {
      var n := |missing| - 1;
      NoticesLimited(missing[..n]);
      var prev := Notices(missing[..n]);
      assert Notices(missing) == prev + MissingNotice(n + 1, missing[n]);
      forall i | 0 <= i < |missing| && i < MAX_MISSING_LOG
        ensures Notices(missing)[i] == NOT_FOUND_NOTICE + missing[i]
      {
        if i < n {
          assert missing[..n][i] == missing[i];
        }
      }
    }
  }

  /** A row is left as it was or is uploaded with no error: reconciling never makes a
      row pending or failed. */
  predicate UploadedOrKept(t: Table, t': Table) {
    t'.rows.Keys >= t.rows.Keys
    && forall id :: id in t'.rows ==>
      (id in t.rows && t'.rows[id] == t.rows[id]) || (t'.rows[id].status == Uploaded && t'.rows[id].lastError.None?)
  }

  lemma {:induction false} ImportAllOnlyUploads(t: Table, entries: seq<CompletedLogEntry>, env: Env)
    requires ValidTable(t)
    ensures UploadedOrKept(t, ImportAll(t, entries, env).table)
  {
    if entries != [] {
      var n := |entries| - 1;
      ImportAllOnlyUploads(t, entries[..n], env);
      var prev := ImportAll(t, entries[..n], env);
      if prev.halted.None? {
        var r := ImportEntry(prev.table, entries[n], n + 1, env);
        if r.Some? {
          var t' := r.value.0;
          forall id | id in t'.rows
            ensures (id in t.rows && t'.rows[id] == t.rows[id]) || (t'.rows[id].status == Uploaded && t'.rows[id].lastError.None?)
          {
            if id in prev.table.rows && t'.rows[id] != prev.table.rows[id] {
              assert t'.rows[id].status == Uploaded && t'.rows[id].lastError.None?;
            }
          }
        }
      }
    }
  }

  /** An entry a re-run cannot insert: its path is catalogued, its file is gone, or its
      file's (hash, size) is already known. */
  predicate Settled(t: Table, e: CompletedLogEntry, env: Env) {
    HasPath(t.rows, e.path) || e.path !in env.present
    || (e.path in env.disk && HasIdentity(t.rows, env.hashFile(env.disk[e.path]), |env.disk[e.path]|))
  }

  /** Reconciling only adds paths and identities, so a settled entry stays settled. */
  lemma EntryKeepsSettled(t: Table, e: CompletedLogEntry, processed: nat, env: Env, other: CompletedLogEntry)
    requires ValidTable(t) && ImportEntry(t, e, processed, env).Some? && Settled(t, other, env)
    ensures Settled(ImportEntry(t, e, processed, env).value.0, other, env)
  {
    var t' := ImportEntry(t, e, processed, env).value.0;
    if HasPath(t.rows, other.path) {
      var id :| id in t.rows && t.rows[id].path == other.path;
      assert id in t'.rows && t'.rows[id].path == other.path;
    } else if other.path in env.present {
      var id :| id in t.rows && t.rows[id].hash == env.hashFile(env.disk[other.path]) && t.rows[id].size == |env.disk[other.path]|;
      assert id in t'.rows && SameIdentity(t'.rows[id], t.rows[id]);
    }
  }

  /** An entry that went through is settled afterwards. */
  lemma EntrySettles(t: Table, e: CompletedLogEntry, processed: nat, env: Env)
    requires ValidTable(t) && ImportEntry(t, e, processed, env).Some?
    ensures Settled(ImportEntry(t, e, processed, env).value.0, e, env)
  {
    var r := ImportEntry(t, e, processed, env).value;
    if r.1 == Marked {
      var id :| id in t.rows && t.rows[id].path == e.path;
      assert id in r.0.rows && r.0.rows[id].path == e.path;
    } else if r.1 == Inserted {
      assert r.0.rows[t.nextId].path == e.path;
    }
  }

  /** A settled entry is never inserted, and its file is never read in vain. */
  lemma SettledNotInserted(t: Table, e: CompletedLogEntry, processed: nat, env: Env)
    requires ValidTable(t) && Settled(t, e, env)
    ensures var r := ImportEntry(t, e, processed, env);
      r.Some? && r.value.1 != Inserted && r.value.0.rows.Keys == t.rows.Keys
  {
  }

  predicate AllSettled(t: Table, entries: seq<CompletedLogEntry>, env: Env) {
    forall j :: 0 <= j < |entries| ==> Settled(t, entries[j], env)
  }

  /** One entry going through keeps the settled entries settled. */
  lemma AllKeepSettled(t: Table, e: CompletedLogEntry, processed: nat, env: Env, others: seq<CompletedLogEntry>)
    requires ValidTable(t) && ImportEntry(t, e, processed, env).Some? && AllSettled(t, others, env)
    ensures AllSettled(ImportEntry(t, e, processed, env).value.0, others, env)
  {
    forall j | 0 <= j < |others|
      ensures Settled(ImportEntry(t, e, processed, env).value.0, others[j], env)
    {
      EntryKeepsSettled(t, e, processed, env, others[j]);
    }
  }

  /** The last entry going through settles it and keeps the earlier ones settled. */
  lemma LastEntrySettles(t: Table, entries: seq<CompletedLogEntry>, env: Env)
    requires ValidTable(t) && entries != []
    requires AllSettled(t, entries[..|entries| - 1], env)
    requires ImportEntry(t, entries[|entries| - 1], |entries|, env).Some?
    ensures AllSettled(ImportEntry(t, entries[|entries| - 1], |entries|, env).value.0, entries, env)
  {
    var n := |entries| - 1;
    AllKeepSettled(t, entries[n], n + 1, env, entries[..n]);
    EntrySettles(t, entries[n], n + 1, env);
    assert entries == entries[..n] + [entries[n]];
  }

  /** After a finished run, every entry of the log is settled. */
  lemma {:induction false} ImportAllSettles(t: Table, entries: seq<CompletedLogEntry>, env: Env)
    requires ValidTable(t)
    ensures var pass := ImportAll(t, entries, env);
      pass.halted.None? ==> AllSettled(pass.table, entries, env)
  {
    if entries != [] {
      var n := |entries| - 1;
      ImportAllSettles(t, entries[..n], env);
      var prev := ImportAll(t, entries[..n], env);
      if prev.halted.None? && ImportEntry(prev.table, entries[n], n + 1, env).Some? {
        ImportAllStep(t, entries, n, env);
        assert entries[..n + 1] == entries;
        LastEntrySettles(prev.table, entries, env);
      }
    }
  }

  lemma SettledParts(t: Table, others: seq<CompletedLogEntry>, entries: seq<CompletedLogEntry>, env: Env)
    requires AllSettled(t, others + entries, env)
    ensures AllSettled(t, others, env) && AllSettled(t, entries, env)
  {
    assert forall j :: 0 <= j < |others| ==> (others + entries)[j] == others[j];
    assert forall j :: 0 <= j < |entries| ==> (others + entries)[|others| + j] == entries[j];
  }

  /** Entries that are all settled go through without inserting a row, leave the
      catalog's ids as they were, and keep every settled entry settled. */
  lemma {:induction false} SettledImportInsertsNothing(t: Table, entries: seq<CompletedLogEntry>, env: Env,
                                                       others: seq<CompletedLogEntry>)
    requires ValidTable(t) && AllSettled(t, entries, env) && AllSettled(t, others, env)
    ensures var pass := ImportAll(t, entries, env);
      pass.halted.None? && Count(pass.outcomes, Inserted) == 0 && pass.table.rows.Keys == t.rows.Keys
      && AllSettled(pass.table, others, env) && AllSettled(pass.table, entries, env)
  {
    if entries != [] {
      var n := |entries| - 1;
      assert AllSettled(t, entries[..n], env) by {
        assert forall j :: 0 <= j < n ==> entries[..n][j] == entries[j];
      }
      SettledImportInsertsNothing(t, entries[..n], env, others + entries);
      var prev := ImportAll(t, entries[..n], env);
      SettledParts(prev.table, others, entries, env);
      SettledNotInserted(prev.table, entries[n], n + 1, env);
      AllKeepSettled(prev.table, entries[n], n + 1, env, others + entries);
      var r := ImportEntry(prev.table, entries[n], n + 1, env).value;
      var outcomes := prev.outcomes + [r.1];
      assert outcomes[..|outcomes| - 1] == prev.outcomes;
      SettledParts(r.0, others, entries, env);
    }
  }

  /** Importing the same log again over unchanged files inserts no row. */
  lemma ReimportInsertsNothing(t: Table, entries: seq<CompletedLogEntry>, env: Env, later: nat -> Timestamp)
    requires ValidTable(t)
    requires ImportAll(t, entries, env).halted.None?
    ensures var again := ImportAll(ImportAll(t, entries, env).table, entries, env.(clock := later));
      again.halted.None? && Count(again.outcomes, Inserted) == 0
  {
    var first := ImportAll(t, entries, env).table;
    var env' := env.(clock := later);
    ImportAllSettles(t, entries, env);
    assert AllSettled(first, entries, env');
    SettledImportInsertsNothing(first, entries, env', entries);
  }
}
