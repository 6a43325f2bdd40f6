# immich_toys uploader: a verified model of its catalog and synchronisation engine

This project models, in Dafny, the core of the immich_toys command-line uploader. The uploader keeps
a SQLite catalog of media files, with one row per content identity `(hash, size)`.
It fills the catalog from a directory tree (`update`) and uploads the rows that
are not yet uploaded (`post`). Uploads are retried at the tail of a FIFO queue
within a run. It also backfills the catalog from an earlier run's console log
(`import-log`). The model covers:

- The catalog (`src/db.ts`): the table, its unique `(hash, size)` index and its
  AUTOINCREMENT ids, as the class `Db.Catalog`. An ignored insert still uses up an
  id, so ids can have gaps. Each statement the commands issue
  is a method that updates the class's `rows` map and `nextId` counter. Beside it is
  a pure function per statement that states what it does to a `Table` value.
- The two selection queries (`src/commands/post.ts`, `src/index.ts`). They are
  proved to return exactly the not-uploaded rows. The first query orders failed
  rows after the others and then by id; the second orders by id alone.
- `runUpdate` (`src/commands/update.ts`): the indexing loop with insert-or-ignore
  and its counters. The loop is proved against the function `Update.IndexAll`,
  whose properties are proved as lemmas (growth, which flags are set,
  re-indexing changes nothing).
- `parsePostArgs` and `runPost` (`src/commands/post.ts`):
  - The argument loop is proved equal to a recursive reading of the arguments.
  - The `while` loop with its queue, retry map, counters and catalog writes is
    proved equal to `Post.Run`.
  - The whole run is proved to settle every selected row exactly once. The
    counters count exactly the rows uploaded, given up and skipped as videos.
  - A row is tried at most `retryCount + 1` times, and given up only after that
    many failures.
  - Each row's final columns are the effect of its last attempt.
- `parseCompletedEntriesFromLog` (`src/log-parser.ts`): trimming, prefix tests,
  the first ` -> ` split, the `/^(\d{3})\b/` status code, and the insertion-ordered
  `dedup` map. The map's key order, last code and "a skip line keeps the code"
  are proved. The lines the uploader itself prints are proved to read back.
- `runImportLog` (`src/commands/import-log.ts`): the path match first, then the
  missing-file check, then hash and insert-or-ignore as uploaded. Also modelled are
  its counters and its notices, of which at most 20 name a file and one is a
  suppression notice. Importing the same log again later, with the files unchanged,
  is proved to insert nothing after a first import that did not stop at an
  unreadable file.
- `src/index.ts`, the older single-file entry point: its extension list, its
  `runUpdate` with the `Indexed` lines, its single-pass `runPost` with no retries,
  and `main`'s dispatch.
- `src/utils/progress.ts`: `formatDuration`, proved to read back as the whole
  seconds it formats; the non-terminal print rule; and `renderProgress` and
  `withProgressSafeLog` over the module state, a class `Progress.ProgressDisplay`.
- `src/media.ts` and `src/constants.ts`: suffix classification and `getAllImageFiles`
  over an abstract directory tree, including the entries whose listing or `stat`
  throws. `src/hash.ts`'s 16-digit zero-padded hex text
  is proved injective.

Files, one module each:

| file | module |
|---|---|
| `wrappers.dfy` | `Option` and `Result` |
| `types.dfy` | the records of `src/types.ts` |
| `text.dfy` | the JavaScript string operations the source relies on: `trim`, ASCII `toLowerCase`, `split`, `Number.parseInt`, `toString`, `padStart` |
| `constants.dfy` | `src/constants.ts` |
| `media.dfy` | `src/media.ts` |
| `content.dfy` | the hash text of `src/hash.ts` |
| `db.dfy` | `src/db.ts` and the statements and queries of the commands |
| `update.dfy` | `runUpdate` |
| `post_args.dfy` | `parsePostArgs` |
| `post.dfy` | the `runPost` loop |
| `post_properties.dfy` | what a `runPost` run guarantees |
| `log_parser.dfy` | `src/log-parser.ts` |
| `import_log.dfy` | `runImportLog` |
| `legacy.dfy` | `src/index.ts` |
| `progress.dfy` | `src/utils/progress.ts` |

How the world outside the program enters the model:

- **Directory tree:** a value `Media.Entry`. A symbolic link appears as what it
  points to. A directory that cannot be listed is `Unlistable`, and a name that
  `statSync` cannot follow (a dangling link, say) is `Dangling`.
- **File contents:** a map `disk` from path to bytes. A path that is present but
  unreadable is in `present` and missing from `disk`.
- **Hash function:** the commands take the 64-bit xxHash as a parameter `xxh64`
  and turn it into text with `Content.HashFile` (`Content.Hasher`). The indexing
  functions and their lemmas take any `hashFile`.
- **`path.resolve`:** a parameter `resolve`.
- **Clock:** a `now` value, or a function of the step number.
- **Upload outcome:** `runPost` takes `attempt(count, row)`, which gives the
  outcome of the `count`-th step (file missing, or the `UploadResult`).
- **Terminal:** whether stdout is a terminal is the `tty` field of
  `Progress.ProgressDisplay`.

Behaviour of the code worth noting:

- **Selection order.** The `post` selection orders failed rows after the others
  (`CASE WHEN status = 'failed' THEN 1 ELSE 0 END`).
- **Marking by path.** `markUploadedByPath` updates *every* row stored under the
  path, since paths are not unique. Its `changes` is the number of such rows.
- **Log order and codes.** The parsed log keeps each path at the position of its
  *first* occurrence. A later `Uploaded:` line replaces the code, even with null,
  while a `Skipping` line never replaces it.
- **Import counters.** `import-log` counts a backfilled row as inserted only when
  the insert was not ignored.
- **Id gaps.** With `AUTOINCREMENT`, an `INSERT OR IGNORE` that is ignored still
  advances `sqlite_sequence`. Re-indexing the same tree leaves every row as it
  was but moves the id counter on by one per file, and the next new row's id
  skips those numbers.
- **Walk errors.** `update` opens (and creates) the catalog before it walks the
  tree. A walk that throws therefore ends the command with the catalog created and
  no row inserted.
- **Re-importing a log.** After a first import that did not stop at an unreadable
  file, importing the same log again later, with the files unchanged, inserts
  nothing. It marks the tracked paths again and restamps their timestamps, so the
  catalog after the second pass differs in those timestamps.

## Model

| member | source | states |
|---|---|---|
| Constants.MediaExtensionsLayout | src/constants.ts:11-16 | the media list is the 18 still, raw and scientific suffixes followed by every video suffix, in order |
| Constants.VideoExtensionsAreMedia | src/constants.ts:11-16 | every video suffix is also a media suffix |
| Constants.ExtensionsWellFormed | src/constants.ts:4-16 | every suffix starts with `.` and is lower case, so matching against a lower-cased path ignores case |
| Media.AnyEndsWith | src/media.ts:13 | `exts.some(ext => s.endsWith(ext))` holds exactly when some listed suffix ends `s` |
| Media.MediaFileMeansMediaSuffix | src/media.ts:11-25 | `isMediaFile(p)` iff lower-cased `p` ends with a media suffix, and `isVideoFile(p)` iff it ends with a video suffix |
| Media.ClassificationIgnoresCase | src/media.ts:12 | classifying a path and its lower-cased form give the same answer |
| Media.VideoIsMedia | src/media.ts:22-25 | every video file is a media file |
| Media.MultiDotSuffix | src/media.ts:13 | `.nii.gz` is recognised in either case, because the match is by suffix and not by last extension |
| Media.EntryMediaFilesExact | src/media.ts:33-48 | the walk of a tree lists exactly the non-directory paths below it that are media files |
| Media.MediaFilesOfExact | src/media.ts:37-45 | the walk over the first `n` entries of a directory lists exactly the media files below those entries |
| Media.GetAllImageFiles | src/media.ts:33-48 | the recursive walk with `concat` and `push` throws exactly when some entry below the directory cannot be listed or `stat`ed, at the first such entry in walk order; otherwise it returns the walk's listing: every media file below the directory and nothing else |
| Media.WalkErrorExact | src/media.ts:35-41 | the walk of a tree throws exactly when some entry below it cannot be listed or `stat`ed, and then at such an entry |
| Media.WalkErrorOfExact | src/media.ts:37-45 | the walk over the first `n` entries of a directory throws exactly when one of those entries has an unreadable entry below it, and then at such an entry |
| Media.WalkErrorOfKeeps | src/media.ts:37-45 | once the loop over a directory's entries has thrown, the later entries do not change where it threw |
| Content.ToHexValue | src/hash.ts:23 | `toString(16)` reads back as the number it prints |
| Content.ToHex | src/hash.ts:23 | `toString(16)` is a non-empty string of hexadecimal digits |
| Content.ToHexLength | src/hash.ts:23 | a number below 16^k prints with at most k digits, so a 64-bit digest needs at most 16 and padding only adds zeros |
| Content.DigestText | src/hash.ts:23 | the digest text is exactly 16 hexadecimal digits |
| Content.DigestTextInjective | src/hash.ts:23 | two digests give the same text exactly when they are equal, so zero-padding loses nothing |
| Content.HashFile | src/hash.ts:11-24 | the hash of a file's bytes is 16 hexadecimal digits that read back as their 64-bit xxHash |
| Content.HexLeadingZeros | src/hash.ts:23 | `padStart` with `'0'` keeps the hexadecimal value |
| Db.NewRow | src/db.ts:5-17 | an insert without a status gets `'pending'`, `last_error` starts null and `updated_at` is always set |
| Db.AfterInsertOrIgnore | src/db.ts:19-22 | INSERT OR IGNORE adds the row under the next id exactly when its `(hash, size)` is new, and otherwise changes no row; old rows keep their ids and columns, every old id is below the new one, and the attempt uses up an id either way, since AUTOINCREMENT advances `sqlite_sequence` for an ignored insert too |
| Db.IgnoredInsert | src/db.ts:19-22 | inserting an identity the table already has changes no row, reports no change and uses up one id |
| Db.IgnoredInsertLeavesGap | src/db.ts:7-22 | inserting a new identity, then a copy of it, then another new identity stores the two new rows under the first and third ids, skipping the second, and moves the counter on by three |
| Db.AddKeepsValid | src/db.ts:7-22 | a row with a new identity, added under the next id, keeps the ids in range and the `(hash, size)` index unique |
| Db.MarkUploaded | src/commands/post.ts:97-101 | the success update sets `'uploaded'`, the code, `uploaded_at`, `updated_at` and clears `last_error`, keeping path and identity |
| Db.MarkFailed | src/commands/post.ts:103-107 | the failure update sets `'failed'`, the code, the message and `updated_at`, keeping `uploaded_at`, path and identity |
| Db.MarkUploadedCoalesce | src/commands/import-log.ts:14-18 | `COALESCE(?, status_code)`: a null code keeps the stored one; otherwise as the success update |
| Db.UpdateById | src/commands/post.ts:97-107 | `WHERE id = ?` changes that row only, and nothing when the id is absent; the table stays valid |
| Db.IdsWithPathEmpty | src/commands/import-log.ts:36 | some row matches the path exactly when some stored row has that path |
| Db.MarkPathRows | src/commands/import-log.ts:14-18 | every row with the path is marked uploaded, and every other row is kept |
| Db.AfterMarkUploadedByPath | src/commands/import-log.ts:14-18 | the update by path marks every row with that path (paths are not unique), its `changes` is the number of such rows, and it is positive exactly when the path is stored |
| Db.ScanExact | src/commands/post.ts:90-95 | a scan lists each kept row once, with its own columns, in ascending id order, and misses none |
| Db.ScanRows | src/commands/post.ts:91-93 | every row a scan lists exists, is kept by the filter and carries its stored columns |
| Db.ScanComplete | src/commands/post.ts:93 | every row the filter keeps is listed |
| Db.ScanAscending | src/commands/post.ts:94 | a scan lists rows in ascending id order |
| Db.SelectUnsynchronizedIsSelection | src/commands/post.ts:90-95 | the `post` query returns exactly the rows not uploaded, each once, with the non-failed rows before the failed ones and ascending ids within each group |
| Db.SelectionComplete | src/commands/post.ts:93 | the two halves together hold every row that is not uploaded |
| Db.SelectionOrdered | src/commands/post.ts:94 | the non-failed half followed by the failed half is in query order |
| Db.SelectUnsynchronizedByIdIsSelection | src/index.ts:208-213 | the legacy query returns exactly the rows not uploaded, each once, in ascending id order |
| Db.Catalog.Open | src/db.ts:3-30 | opening yields the stored catalog unchanged, or an empty one with next id 1 when the file is new |
| Db.Catalog.InsertOrIgnore | src/commands/update.ts:14-17 | the catalog becomes the insert-or-ignore result, and `changes` is 1 exactly when the row was added |
| Db.Catalog.UpdateSuccess | src/commands/post.ts:97-101 | the row with that id, if any, gets the success update; nothing else changes |
| Db.Catalog.UpdateFail | src/commands/post.ts:103-107 | the row with that id, if any, gets the failure update; nothing else changes |
| Db.Catalog.MarkUploadedByPath | src/commands/import-log.ts:14-18 | the catalog and `changes` are those of the update by path |
| Text.TrimStart | src/log-parser.ts:14 | removes exactly the leading whitespace |
| Text.TrimEnd | src/log-parser.ts:14 | removes exactly the trailing whitespace |
| Text.TrimIdempotent | src/log-parser.ts:14 | a trimmed line has no whitespace at either end, and trimming again changes nothing |
| Text.TrimUnchanged | src/log-parser.ts:14 | a text without whitespace at its ends is its own trim |
| Text.Lower | src/media.ts:12 | lower-casing maps each character and keeps the length |
| Text.LowerIsLowerCase | src/media.ts:12 | the result is lower case, and lower-case text is unchanged |
| Text.LowerIdempotent | src/media.ts:12 | lower-casing twice is lower-casing once |
| Text.IndexOf | src/log-parser.ts:17 | finds the first occurrence of the separator at or after `from`, or reports that there is none |
| Text.SplitFirstTwoParts | src/log-parser.ts:17 | `split(' -> ')` destructured into two parts: the first part holds no separator; with no separator it is the whole text, otherwise the text is the first part, the separator and then the second part |
| Text.SplitLines | src/log-parser.ts:10 | splitting on `/\r?\n/` yields at least one line, and no line holds a newline |
| Text.SplitJoinLines | src/log-parser.ts:10 | lines without line breaks, joined by LF or by CRLF, split back into the same lines |
| Text.SplitLineStep | src/log-parser.ts:10 | a line, its break and the rest split into that line followed by the rest's lines |
| Text.NatToString | src/utils/progress.ts:17 | `toString()` is a non-empty digit string without a leading zero |
| Text.NatToStringValue | src/utils/progress.ts:17 | `toString()` reads back as the number |
| Text.NatToStringLength | src/utils/progress.ts:17 | numbers below 10, 100 and 1000 print with 1, 2 and 3 digits |
| Text.PadStart2 | src/utils/progress.ts:17 | `padStart(2, '0')` leaves texts of two or more characters alone and pads shorter ones with zeros to two |
| Text.PadStart2Value | src/utils/progress.ts:17 | the padded field reads back as the number |
| Text.DigitPrefixLength | src/commands/post.ts:42 | the run of digits that `parseInt` reads stops at the first non-digit |
| Text.ParseIntPrefix | src/commands/post.ts:42 | `parseInt` of a number followed by a non-digit tail gives that number |
| Text.ParseIntNegative | src/commands/post.ts:42 | a minus sign before the digits gives the negated number |
| Text.ParseIntNaN | src/commands/post.ts:42-43 | `parseInt` is NaN exactly when no digit follows the optional whitespace and sign |
| Text.ParseIntNoDigit | src/commands/post.ts:42-43 | a text that starts with neither whitespace nor a digit, nor with a sign followed by a digit, parses to NaN |
| Text.ParseIntMinus | src/commands/post.ts:42 | after a minus sign, `parseInt` reads the digit run and negates it |
| Text.DecimalLeadingZero | src/utils/progress.ts:17 | a leading zero does not change a decimal value |
| Update.PendingRow | src/commands/update.ts:14-17 | the row indexed for a file is pending, under the file's path, with the file's hash and byte size |
| Update.ReadablePrefix | src/commands/update.ts:27-30 | counts the files, from the front, that can be read; the next one cannot be |
| Update.IndexAll | src/commands/update.ts:27-38 | indexing readable files keeps the table valid and yields one inserted-or-skipped flag per file |
| Update.IndexAllStep | src/commands/update.ts:27-38 | indexing one more file is one more insert-or-ignore, with one more flag |
| Update.CountTrue | src/commands/update.ts:32-36 | the inserted count never exceeds the number of files |
| Update.OutcomeStopped | src/commands/update.ts:29-30 | when the file at `index` is the first unreadable one, the run keeps the inserts before it and fails naming it |
| Update.OutcomeFinished | src/commands/update.ts:26-43 | when every file can be read, the run reports `inserted` as the number of new identities and `skipped` as the rest, so `inserted + skipped` is the number of files found |
| Update.RunUpdate | src/commands/update.ts:8-44 | a target that is not a directory fails before the catalog is opened; a walk that throws fails after the catalog is opened, with the catalog as it was (created if absent); otherwise the catalog and counters are the indexing outcome over the walk of the tree |
| Update.IndexFiles | src/commands/update.ts:26-38 | the loop leaves the catalog and the result of indexing the files in order, stopping at the first unreadable file |
| Update.InsertFile | src/commands/update.ts:28-36 | one pass of the loop body is one indexing step, and the inserted count grows exactly when the row was added |
| Update.InsertKnown | src/commands/update.ts:31 | after an insert-or-ignore, the known identities are those known before plus the row's |
| Update.IndexAllKeeps | src/commands/update.ts:14-17 | indexing keeps every existing row as it was, and every new row is pending, under the path of a file whose insert took effect |
| Update.IndexAllKeepsRows | src/commands/update.ts:31 | existing rows are never changed by indexing |
| Update.IndexAllAdds | src/commands/update.ts:14-17 | every added row is pending and under the path of a file whose insert took effect |
| Update.IndexAllKnown | src/commands/update.ts:27-38 | after indexing, the known identities are those known before plus the identity of every file found |
| Update.IndexAllFlags | src/commands/update.ts:32-36 | a file counts as inserted exactly when its identity was unknown and no earlier file had it, so of two identical files only the first path is stored |
| Update.IndexAllFlagsEarlier | src/commands/update.ts:32-36 | the same, for every file but the last |
| Update.IndexAllFlagLast | src/commands/update.ts:32-36 | the same, for the last file |
| Update.IndexAllFlagKept | src/commands/update.ts:32-36 | indexing one more file leaves the flags of the files before it as they were |
| Update.IndexAllGrowth | src/commands/update.ts:32-36 | the catalog grows by exactly the inserted count |
| Update.IndexAllKnownFiles | src/commands/update.ts:32-36 | when every identity is already known, indexing changes no row and inserts nothing, and the id counter moves on by one per file |
| Update.ReindexChangesNothing | src/commands/update.ts:14-17 | when every file is readable, indexing the same files again later, with the files unchanged, leaves every row as it was and inserts nothing; only the id counter moves on, by one per file |
| PostArgsParser.ParsePostArgs | src/commands/post.ts:18-77 | the argument loop returns the recursive reading of the arguments: the options, the resolved db path, or the first error |
| PostArgsParser.TakeArg | src/commands/post.ts:25-69 | one pass of the loop body either throws the error the recursive reading gives from that position, or moves forward and continues as the recursive reading does |
| PostArgsParser.LastJoinedRetryCount | src/commands/post.ts:51-58 | appending `--retry-count=N` to arguments that parse sets the retry budget to N and keeps every other option |
| PostArgsParser.LastSpacedRetryCount | src/commands/post.ts:37-48 | appending `--retry-count N` to arguments that parse sets the retry budget to N and keeps every other option |
| PostArgsParser.NoArguments | src/commands/post.ts:19-22 | no arguments give the default db path, both flags off and 5 retries |
| PostArgsParser.ParseAppend | src/commands/post.ts:24-69 | reading more arguments continues from the options read so far |
| PostArgsParser.RetryValueOfNumber | src/commands/post.ts:42-46 | a value starting with a number, even `3abc`, is accepted as that number |
| PostArgsParser.RetryCountLastWins | src/commands/post.ts:37-58 | a later `--retry-count=N` or `--retry-count N` replaces the retry budget and changes nothing else |
| PostArgsParser.RetryValueRefused | src/commands/post.ts:43-44 | a negative number, or a word that is not a number, is refused |
| PostArgsParser.RetryCountWithoutValue | src/commands/post.ts:38-41 | `--retry-count` with no value, or with an empty one, is refused |
| PostArgsParser.RetryCountInvalid | src/commands/post.ts:51-56 | `--retry-count=` followed by an invalid value is refused with that value |
| PostArgsParser.RetryCountInvalidSpaced | src/commands/post.ts:37-45 | `--retry-count` followed by an invalid value is refused with that value |
| PostArgsParser.JoinedRetryCount | src/commands/post.ts:51-59 | how `--retry-count=<value>` is read: refused, or the budget set and one argument consumed |
| PostArgsParser.SpacedRetryCount | src/commands/post.ts:37-49 | how `--retry-count <value>` is read: refused, or the budget set and two arguments consumed |
| PostArgsParser.UnknownOptionRefused | src/commands/post.ts:61-63 | any other argument starting with `-` is refused as an unknown option |
| PostArgsParser.PositionalArguments | src/commands/post.ts:65-68 | one positional argument is the db path, and a second one is refused |
| PostArgsParser.FlagsFrom | src/commands/post.ts:24-35 | from any position, a flag is on exactly when it was on already or appears in the remaining arguments |
| PostArgsParser.ParseStep | src/commands/post.ts:24-69 | one pass of the loop consumes one argument, or two for `--retry-count <value>`, and turns on exactly the flag it reads |
| PostArgsParser.FlagIsNoNumber | src/commands/post.ts:42-43 | the flag words are not numbers, so they are refused as a retry value |
| PostArgsParser.FlagsExact | src/commands/post.ts:27-35 | when parsing succeeds, `excludeVideos` and `quietSuccess` are on exactly when their flags appear |
| Post.AttemptEffect | src/commands/post.ts:136-171 | an attempt leaves the row uploaded exactly when it succeeded and failed otherwise, with the response code (none for a missing file); a failure stores `'File not found'`, the server's message or `'unknown error'`; `updated_at` is always set and `uploaded_at` only on success |
| Post.AttemptOverwrites | src/commands/post.ts:139-160 | after a failed attempt, the next attempt's writes replace all of it |
| Post.Recorded | src/commands/post.ts:136-160 | recording an attempt keeps the table valid, its ids and its next id |
| Post.StepDecreases | src/commands/post.ts:120-173 | each pass keeps the table valid and the retry counts within the budget, and shrinks the remaining work, so the loop ends |
| Post.StepBounded | src/commands/post.ts:141-144 | no retry count exceeds the budget |
| Post.StepWeight | src/commands/post.ts:120-173 | each pass lowers the number of tries the queue can still take |
| Post.WeightRaise | src/commands/post.ts:143-145 | counting a retry lowers what the queue can still take |
| Post.TriedShape | src/commands/post.ts:136-171 | a pass that tries its row records the try; the row leaves the queue on success or when its budget is spent, or else goes to the back with one more retry |
| Post.StepRequeues | src/commands/post.ts:141-146 | a failed row with budget left goes to the back of the queue, one more retry counted |
| Post.StepDrops | src/commands/post.ts:129-171 | a skipped, uploaded or given-up row leaves the queue, and no retry count changes |
| Post.Run | src/commands/post.ts:120-173 | the loop ends with an empty queue and a valid table |
| Post.RunPost | src/commands/post.ts:87-179 | the counters and the catalog are those of the loop run from the selection, with nothing counted |
| Post.TakeNext | src/commands/post.ts:121-172 | one pass of the loop body: the head of the queue is skipped as a video or tried |
| Post.TryRow | src/commands/post.ts:136-171 | a tried row's write, queue, retry count and counter are those of one loop step |
| Post.RecordAttempt | src/commands/post.ts:136-160 | the catalog becomes the table with the attempt's update written to the row with that id, and stays valid |
| PostProperties.SelectionFactsHold | src/commands/post.ts:90-95 | the selected rows exist, are not uploaded, carry their columns and are distinct |
| PostProperties.InitialInv | src/commands/post.ts:109-118 | before the loop, every selected row is untouched and waits in selection order |
| PostProperties.StepFrame | src/commands/post.ts:121-172 | a pass touches only the popped row: others keep their tries, retries and columns |
| PostProperties.StepQueue | src/commands/post.ts:121-166 | a pass counts one step and either drops the head or moves it to the back |
| PostProperties.StepEntries | src/commands/post.ts:141-165 | a pass changes the retries and tries of the popped row only |
| PostProperties.StepTable | src/commands/post.ts:139-160 | a pass writes the popped row only, by id |
| PostProperties.RowUnaffected | src/commands/post.ts:120-173 | a pass that pops another row leaves this row's state and fate as they were |
| PostProperties.PoppedIndex | src/commands/post.ts:120-121 | the popped row is a selected row, and in the first pass it is the next one in selection order |
| PostProperties.HistoryAfterTry | src/commands/post.ts:136-171 | after a try, the row's columns are the effect of that try, and all its earlier tries failed |
| PostProperties.PoppedRow | src/commands/post.ts:129-171 | the popped row's state and its counter change together |
| PostProperties.PoppedSkipped | src/commands/post.ts:129-134 | a skipped video is counted once, never written and never queued again |
| PostProperties.PoppedTried | src/commands/post.ts:136-171 | a tried row is counted once when it succeeds or spends its budget |
| PostProperties.ThoseStep | src/commands/post.ts:130-169 | a pass adds the popped row to at most the one counter it settles in |
| PostProperties.StepOthers | src/commands/post.ts:120-173 | in a pass, the popped row was waiting and moves to its new state with its counter bumped, and every other row keeps its state and fate |
| PostProperties.QueueAfterStep | src/commands/post.ts:121-166 | the queue still holds distinct selected rows after a pass |
| PostProperties.FifoAfterStep | src/commands/post.ts:121-166 | after a pass, the rows not reached yet still wait at the head of the queue, in selection order |
| PostProperties.ShapeAfterStep | src/commands/post.ts:139-160 | a pass that writes one not-yet-uploaded row keeps the table's ids and its uploaded rows |
| PostProperties.StepInv | src/commands/post.ts:120-173 | each pass keeps the loop invariant: table shape, queue from the selection, FIFO order, each row's state and counters matching the rows |
| PostProperties.StepRows | src/commands/post.ts:120-173 | after a pass, every selected row's state holds and each counter counts exactly the rows in it |
| PostProperties.RunKeepsInv | src/commands/post.ts:120-173 | the invariant holds when the loop ends |
| PostProperties.AllSettled | src/commands/post.ts:120 | when the queue is empty, every selected row is settled |
| PostProperties.FinalFates | src/commands/post.ts:129-171 | at the end, a row is counted uploaded iff it is stored uploaded, failed iff it was tried and is stored failed, and skipped iff it is an excluded video |
| PostProperties.Finished | src/commands/post.ts:115-173 | the run from the selection ends with the invariant and an empty queue |
| PostProperties.ThoseUploaded | src/commands/post.ts:156-158 | the rows counted as uploaded are exactly the selected rows stored uploaded |
| PostProperties.ThoseGaveUp | src/commands/post.ts:147-169 | the rows counted as failed are exactly the tried selected rows stored failed |
| PostProperties.ThoseSkipped | src/commands/post.ts:129-130 | the rows counted as skipped are exactly the excluded videos |
| PostProperties.ThosePartition | src/commands/post.ts:111-113 | the three counters add up to the number of settled rows |
| PostProperties.FinalRow | src/commands/post.ts:129-171 | a skipped video keeps its stored row; a tried row ends as its last try left it, tried at most `retryCount + 1` times and exactly that many when every try failed |
| PostProperties.FinalRows | src/commands/post.ts:115-173 | the final table keeps its ids and its uploaded rows, and every selected row ends as the last try left it |
| PostProperties.RunPostCounts | src/commands/post.ts:111-178 | `uploaded + failed + skipped_video` equals the number of selected rows, and each counter counts exactly the rows that end in its state |
| PostProperties.RunPostRows | src/commands/post.ts:115-173 | after the run, the rows already uploaded are unchanged, skipped videos are untouched, and each tried row is as its last try left it after at most `retryCount + 1` tries, all failed but possibly the last |
| PostProperties.Indices | src/commands/post.ts:117 | the positions of the selection, as many as there are rows |
| LogParser.StatusCodeOf | src/log-parser.ts:22-28 | the code is the three-digit number at the start of the text after the arrow when the digits end at a word boundary, otherwise null |
| LogParser.Effects | src/log-parser.ts:13-39 | each line is read on its own, in order |
| LogParser.MapSet | src/log-parser.ts:30 | `Map.set` stores the value, keeps an existing key in place and appends a new one |
| LogParser.Apply | src/log-parser.ts:30-38 | one line's effect keeps the map a map: each key once, in insertion order |
| LogParser.Fold | src/log-parser.ts:13-40 | the map after all lines has each key once |
| LogParser.EntriesOf | src/log-parser.ts:42-45 | the entries are the map's keys in insertion order, each with its value |
| LogParser.ParseCompletedEntriesFromLog | src/log-parser.ts:5-46 | a missing log is an error; otherwise the loop's map is the fold of the line effects, returned in insertion order |
| LogParser.FoldStep | src/log-parser.ts:13-39 | one more line is one more application |
| LogParser.FoldKeys | src/log-parser.ts:30-38 | a path is in the result exactly when some upload or skip line names it |
| LogParser.FoldLastKeys | src/log-parser.ts:30-38 | a line either leaves the key order as it was or appends the path it names, which no earlier line named (`Map.prototype.set` keeps an existing key in place) |
| LogParser.FoldValue | src/log-parser.ts:30-37 | a path's code is the code of its last `Uploaded:` line, null included, and null when only skip lines name it |
| LogParser.NoCodeWithoutUpload | src/log-parser.ts:30-37 | a path that is not in the result has no upload code |
| LogParser.FoldOrder | src/log-parser.ts:11-45 | entries are in the order of each path's first occurrence |
| LogParser.FoldOrderAt | src/log-parser.ts:11-45 | for two entries in order, every line naming the later one comes after a line naming the earlier one |
| LogParser.ReadSkippingLogLine | src/log-parser.ts:34-38 | a `Skipping already uploaded file:` line with a path reads as keep-the-code for that path |
| LogParser.ReadsAsSkip | src/log-parser.ts:34-38 | a trimmed line with the skip prefix and a path reads as that skip |
| LogParser.SkipIsNotUpload | src/log-parser.ts:15-34 | a skip line is never read as an upload line |
| LogParser.ReadUploadedLogLine | src/log-parser.ts:15-31 | the line `Uploaded: <path> -> <status>  : <msg>` that the uploader prints reads back as its path and status |
| LogParser.ReadsAsUpload | src/log-parser.ts:15-31 | a trimmed `Uploaded: ` line whose first ` -> ` split gives a non-empty trimmed path and a second part reads as that path with the second part's code |
| LogParser.SplitAtPrintedPath | src/log-parser.ts:17 | a printed path without ` -> ` is the first part of the split |
| LogParser.FirstArrowAfterPath | src/log-parser.ts:17 | the first arrow of a printed line follows the path |
| LogParser.StatusOfPrintedCode | src/log-parser.ts:24-26 | a printed three-digit status is read back |
| LogParser.SecondPartStartsWithCode | src/log-parser.ts:24 | the text after the arrow starts with the code and ends it at a word boundary |
| ImportLog.UploadedRow | src/commands/import-log.ts:20-23 | the backfilled row is uploaded, with the entry's path and code, the file's hash and size, and both timestamps |
| ImportLog.ImportEntry | src/commands/import-log.ts:32-60 | an entry is marked exactly when its path is stored; otherwise it is missing when the file does not exist, and inserted or ignored by identity when it does; the run stops only on a file that exists but cannot be read |
| ImportLog.ImportAll | src/commands/import-log.ts:32-61 | the entries are processed in order, stopping at the first file that exists but cannot be read; the catalog only grows |
| ImportLog.ImportAllStep | src/commands/import-log.ts:32-61 | one more entry is one more step |
| ImportLog.Count | src/commands/import-log.ts:25-27 | a counter never exceeds the entries processed |
| ImportLog.MissingPaths | src/commands/import-log.ts:42-43 | one path per missing entry |
| ImportLog.RunImportLog | src/commands/import-log.ts:9-67 | a missing log fails after the catalog is opened; otherwise the catalog, the counters and the notices are those of importing the parsed entries in order |
| ImportLog.ImportEntries | src/commands/import-log.ts:30-61 | the loop leaves the catalog, counters and notices of the import, or the error of the first unreadable file |
| ImportLog.Tally | src/commands/import-log.ts:36-58 | each outcome raises its own counter by one and leaves the others; a missing file adds its notice: the file named while at most 20 are missing, one suppression notice at the 21st, nothing after |
| ImportLog.Tallied | src/commands/import-log.ts:36-58 | the counts and notices over all outcomes so far grow by exactly what `Tally` adds for one more outcome, so the loop's counters and notices stay those of every entry seen |
| ImportLog.TallyKeepsCounts | src/commands/import-log.ts:36-58 | the counters and notices `Tally` computes from those of some outcomes are those of the outcomes with one more |
| ImportLog.CountSnoc | src/commands/import-log.ts:36-58 | one more outcome raises its own count by one and no other count |
| ImportLog.NoticesSnoc | src/commands/import-log.ts:42-48 | one more missing file adds its notice for the new missing count, and any other outcome adds none |
| ImportLog.ImportAllHalted | src/commands/import-log.ts:55 | once stopped, later entries change nothing |
| ImportLog.ImportOne | src/commands/import-log.ts:33-60 | one pass of the loop body is one import step |
| ImportLog.CountsAddUp | src/commands/import-log.ts:36-59 | every processed entry is marked, missing, inserted or ignored |
| ImportLog.ImportCountsBound | src/commands/import-log.ts:25-61 | `marked + missing + inserted` is at most the number of entries, with equality exactly when no insert was ignored |
| ImportLog.NoticesLimited | src/commands/import-log.ts:28-48 | the first 20 missing files are named, and exactly one suppression notice follows at the 21st |
| ImportLog.ImportAllOnlyUploads | src/commands/import-log.ts:14-23 | an import never sets a row to pending or failed: every row is kept or uploaded |
| ImportLog.EntryKeepsSettled | src/commands/import-log.ts:14-23 | an entry that is settled (its path stored, its file gone, or its identity stored) stays settled when another entry is imported |
| ImportLog.EntrySettles | src/commands/import-log.ts:35-59 | after an entry is imported, it is settled: its path is stored, its file is gone, or its identity is stored |
| ImportLog.LastEntrySettles | src/commands/import-log.ts:35-59 | when the last entry of a log goes through after the earlier ones are settled, all of them are settled |
| ImportLog.SettledNotInserted | src/commands/import-log.ts:35-59 | importing a settled entry does not stop the run, inserts nothing and adds no row |
| ImportLog.AllKeepSettled | src/commands/import-log.ts:14-23 | importing an entry keeps a whole list of settled entries settled |
| ImportLog.ImportAllSettles | src/commands/import-log.ts:32-61 | after a complete import, every entry is settled |
| ImportLog.SettledImportInsertsNothing | src/commands/import-log.ts:32-61 | importing settled entries inserts nothing and adds no row |
| ImportLog.ReimportInsertsNothing | src/commands/import-log.ts:35-59 | after a first import that did not stop at an unreadable file, importing the same log again later, with the files unchanged, inserts nothing and does not stop |
| Legacy.LegacyClassificationAgrees | src/index.ts:15-20 | the legacy extension list is the media list, so both entry points classify alike |
| Legacy.IndexedLinesBefore | src/index.ts:194-196 | before the last file, a line is printed for every hundredth file |
| Legacy.IndexedLinesComplete | src/index.ts:194-196 | over a whole run, the last line printed is for the last file, and there is one per hundred files plus one unless the count is a multiple of 100 |
| Legacy.LegacyRunUpdate | src/index.ts:165-203 | the same outcome as `runUpdate`, including the failure of a walk that throws after the catalog is opened, plus the `Indexed` lines for the files read |
| Legacy.LegacyIndexFiles | src/index.ts:182-197 | the loop leaves the indexing outcome and the `Indexed` lines |
| Legacy.IndexNext | src/index.ts:184-196 | one pass of the loop body: one indexing step, the counters and the `Indexed` line |
| Legacy.SinglePass | src/index.ts:230-247 | a single pass keeps ids and the table valid |
| Legacy.LegacyRunPost | src/index.ts:205-251 | the catalog after one pass over the rows not uploaded, in id order |
| Legacy.SinglePassUntouched | src/index.ts:232 | rows not selected are untouched |
| Legacy.SinglePassAttempted | src/index.ts:232-247 | every selected row is attempted once, at its place in the selection, and ends as that attempt left it |
| Legacy.LegacyPostRows | src/index.ts:205-251 | after the legacy run, uploaded rows are unchanged and every selected row shows its one attempt, with no retry |
| Legacy.Dispatch | src/index.ts:253-275 | `update` with a target runs the indexer, `post` runs the upload, and anything else, including `update` without a target, prints usage and exits with 1; the db path defaults to `immich_toys.db` |
| Progress.Field | src/utils/progress.ts:17 | a field is at least two digits, reads back as its number, and is exactly two below 100 |
| Progress.FormatDuration | src/utils/progress.ts:6-9 | a negative or non-finite duration formats as `--:--` |
| Progress.FormatDurationReadsBack | src/utils/progress.ts:11-20 | the text reads back as the whole seconds, with minutes and seconds below 60, and has an hours field exactly from one hour on |
| Progress.UnknownDurationUnreadable | src/utils/progress.ts:7-8 | `--:--` is not a duration |
| Progress.SplitSeconds | src/utils/progress.ts:11-14 | the seconds split into hours, minutes below 60 and seconds below 60 |
| Progress.PrintedOften | src/utils/progress.ts:110-112 | off a terminal, the first and last calls print and at most 99 calls in a row stay silent |
| Progress.BarState | src/utils/progress.ts:87-98 | the bar carries the label and counts, and its ETA is `00:00` once finished |
| Progress.ProgressDisplay.constructor | src/utils/progress.ts:3-4 | no bar is active and no start time is kept |
| Progress.ProgressDisplay.Render | src/utils/progress.ts:75-113 | nothing for a non-positive total; off a terminal, a line exactly at the first, last and every hundredth call; on a terminal, the bar from the label's first start time, with the start time dropped and no bar left active once finished |
| Progress.ProgressDisplay.SafeLog | src/utils/progress.ts:32-66 | the message goes to its stream; while a bar is shown on a terminal, it is preceded by a line break and followed by the bar redrawn |
| Progress.StartTimeLifecycle | src/utils/progress.ts:82-104 | a label's start time is taken at its first call, kept until the last call, and dropped at the last call; other labels are untouched |

## Left out

- I/O:
  - Reading files and directories, `fs.existsSync` and `statSync`, and streaming
    the hash are modelled by the given tree, the `present` set, the `disk` map and
    the `xxh64` parameter.
  - `path.resolve` is the parameter `resolve`.
  - Directory listing order is the order of the given tree's entries.
- Media.Entry: symbolic links are walked as their targets. A link back to an
  ancestor, which makes the walk recurse until it fails, cannot be written as a
  finite tree, so that failure is not modelled; the other walk errors are.
- The network: `uploadImage` in src/uploader.ts and in src/index.ts is the
  parameter `attempt`. The form it sends, including `deviceAssetId` (`hash-size`),
  is not modelled, and neither is the throw on a missing API key, which aborts the
  run.
- Logging:
  - The text of the log lines and the `quietSuccess` flag only affect console
    output. The flag is parsed and returned, but nothing else reads it.
  - The `Retrying later` and summary lines are not modelled.
- The progress bar drawing:
  - `drawProgress` and the percentage are floating-point formatting and are not
    modelled.
  - `renderProgress` calls inside the commands are not modelled.
  - `Date.now` is the parameter `now`, and the TTY check is the `tty` field.
- Progress.EtaMs: the estimate `elapsedMs / current * (total - current)` is computed
  in whole milliseconds (floored) instead of floating point, which can differ
  below one millisecond.
- Text.Lower: `toLowerCase` is modelled for ASCII letters only. Other Unicode case
  mappings are not modelled.
- Text.ParseInt: `Number.parseInt` is modelled on unbounded integers. The loss of
  precision above 2^53 and `Infinity` are not modelled.
- Clocks:
  - `nowIso()` is one timestamp per run in `update` and a function of the step
    number in `post` and `import-log`.
  - Within a step, the success update's two `nowIso()` calls are taken to return
    the same value.
- SQLite mechanics:
  - `db.close()` in the `finally` blocks is not modelled.
  - The status index is not modelled.
  - A store error aborting a run is not modelled. The model's statements cannot
    fail.
- Processes:
  - `process.exit` and the top-level `catch` of `main` in src/index.ts are not
    modelled.
  - `Legacy.Dispatch` returns which command runs, or `Usage` for the usage text
    and exit code 1.
- index.js is a superseded script with no catalog. It is not part of this model.
- The call of `runImportLog` and `runPost` from the command line of `src/cli.ts`
  is not part of this model. Only the `post` argument parser is.
