/** `runPost` (src/commands/post.ts): upload every catalog row not yet uploaded, in
    the order of the selection query, putting a failed row back at the end of the
    queue until its retry budget is spent.

    The outside world is given as parameters: `attempt(count, row)` is what happens
    at the `count`-th step of the loop when `row` is tried (the file is missing, or
    the upload request returned a result), and `clock(count)` is `nowIso()` at that
    step. */
module Post {
  import opened Wrappers
  import opened Types
  import opened Media
  import opened Db

  /** What trying one row produced: `fs.existsSync` said no, or `uploadImage` answered. */
  datatype Attempt = FileMissing | Sent(result: UploadResult)

  const FILE_NOT_FOUND: string := "File not found"
  const UNKNOWN_ERROR: string := "unknown error"

  predicate Succeeded(a: Attempt) {
    a.Sent? && a.result.success
  }

  /** The row after the update statement an attempt runs: `updateSuccessStmt` on
      success, otherwise `updateFailStmt` with the error text (a missing file has no
      status code; a failed request without a message says 'unknown error'). */
  function AttemptEffect(row: Row, a: Attempt, now: Timestamp): (r: Row)
    ensures SameIdentity(r, row) && r.path == row.path
    ensures r.status == Uploaded <==> Succeeded(a)
    ensures r.status == Failed <==> !Succeeded(a)
    ensures r.statusCode == (if a.FileMissing? then None else a.result.statusCode)
    ensures r.lastError.Some? <==> !Succeeded(a)
    ensures a.FileMissing? ==> r.lastError == Some(FILE_NOT_FOUND)
    ensures a.Sent? && !a.result.success ==> r.lastError == Some(a.result.errorMessage.GetOr(UNKNOWN_ERROR))
    ensures r.updatedAt == now && r.uploadedAt == if Succeeded(a) then Some(now) else row.uploadedAt
  {
    match a
    case FileMissing => MarkFailed(row, None, FILE_NOT_FOUND, now)
    case Sent(result) =>
      if result.success then MarkUploaded(row, result.statusCode, now)
      else MarkFailed(row, result.statusCode, result.errorMessage.GetOr(UNKNOWN_ERROR), now)
  }

  /** Each attempt overwrites every column an earlier attempt wrote, so a row's final
      state depends only on its last attempt. */
  lemma AttemptOverwrites(row: Row, first: Attempt, firstAt: Timestamp, second: Attempt, secondAt: Timestamp)
    requires !Succeeded(first)
    ensures AttemptEffect(AttemptEffect(row, first, firstAt), second, secondAt) == AttemptEffect(row, second, secondAt)
  {
  }

  /** The counters the run reports: `uploaded`, `failed`, `skippedVideo`. */
  datatype Tally = Tally(uploaded: nat, failed: nat, skippedVideo: nat)

  /** The fixed inputs of one run. */
  datatype PostRun = PostRun(
    excludeVideos: bool,
    retryCount: nat,
    attempt: (nat, ImageRow) -> Attempt,
    clock: nat -> Timestamp)

  /** The loop's variables: the catalog, `queue`, `retryCounts`, `count` and the
      counters; `tries` records, per row id, the steps at which the row was tried. */
  datatype RunState = RunState(
    table: Table,
    queue: seq<ImageRow>,
    retries: map<nat, nat>,
    count: nat,
    tally: Tally,
    tries: map<nat, seq<nat>>)

  /** `excludeVideos && isVideoFile(row.path)`. */
  predicate Skipped(c: PostRun, row: ImageRow) {
    c.excludeVideos && IsVideoFile(row.path)
  }

  /** `retryCounts.get(id) ?? 0`. */
  function Get(retries: map<nat, nat>, id: nat): nat {
    if id in retries then retries[id] else 0
  }

  function TriesOf(tries: map<nat, seq<nat>>, id: nat): seq<nat> {
    if id in tries then tries[id] else []
  }

  /** The update statement of an attempt, run against the catalog by id. */
  function Recorded(t: Table, id: nat, a: Attempt, now: Timestamp): (r: Table)
    requires ValidTable(t)
    ensures ValidTable(r) && r.nextId == t.nextId && r.rows.Keys == t.rows.Keys
  {
    if id in t.rows then UpdateById(t, id, AttemptEffect(t.rows[id], a, now)) else t
  }

  predicate RetriesBounded(retryCount: nat, retries: map<nat, nat>) {
    forall id :: id in retries ==> retries[id] <= retryCount
  }

  /** One pass of the `while (queue.length > 0)` body. */
  function Step(c: PostRun, s: RunState): RunState
    requires s.queue != [] && ValidTable(s.table)
  {
    var row := s.queue[0];
    var rest := s.queue[1..];
    var count := s.count + 1;
    if Skipped(c, row) then
      RunState(s.table, rest, s.retries, count, s.tally.(skippedVideo := s.tally.skippedVideo + 1), s.tries)
    else
      var a := c.attempt(count, row);
      var table := Recorded(s.table, row.id, a, c.clock(count));
      var tries := s.tries[row.id := TriesOf(s.tries, row.id) + [count]];
      if Succeeded(a) then
        RunState(table, rest, s.retries, count, s.tally.(uploaded := s.tally.uploaded + 1), tries)
      else
        var retried := Get(s.retries, row.id);
        if retried < c.retryCount then
          RunState(table, rest + [row], s.retries[row.id := retried + 1], count, s.tally, tries)
        else
          RunState(table, rest, s.retries, count, s.tally.(failed := s.tally.failed + 1), tries)
  }

  // ---------------------------------------------------------------- termination

  /** Every queued row can still be tried `retryCount + 1 - retried` times. */
  function Weight(retryCount: nat, retries: map<nat, nat>, q: seq<ImageRow>): nat {
    if q == [] then 0
    else
      var r := Get(retries, q[0].id);
      (if r <= retryCount then retryCount + 1 - r else 0) + Weight(retryCount, retries, q[1..])
  }

  lemma {:induction false} WeightAppend(retryCount: nat, retries: map<nat, nat>, a: seq<ImageRow>, b: seq<ImageRow>)
    ensures Weight(retryCount, retries, a + b) == Weight(retryCount, retries, a) + Weight(retryCount, retries, b)
  {
    if a == [] {
      assert a + b == b;
    } else {
      assert (a + b)[1..] == a[1..] + b;
      WeightAppend(retryCount, retries, a[1..], b);
    }
  }

  lemma {:induction false} WeightRaise(retryCount: nat, retries: map<nat, nat>, id: nat, q: seq<ImageRow>)
    requires Get(retries, id) < retryCount
    ensures Weight(retryCount, retries[id := Get(retries, id) + 1], q) <= Weight(retryCount, retries, q)
  {
    if q != [] {
      WeightRaise(retryCount, retries, id, q[1..]);
    }
  }

  /** Each step uses up one try of the row it takes off the queue. */
  lemma StepDecreases(c: PostRun, s: RunState)
    requires s.queue != [] && ValidTable(s.table) && RetriesBounded(c.retryCount, s.retries)
    ensures var s' := Step(c, s);
      ValidTable(s'.table) && RetriesBounded(c.retryCount, s'.retries)
      && Weight(c.retryCount, s'.retries, s'.queue) < Weight(c.retryCount, s.retries, s.queue)
  {
    StepBounded(c, s);
    StepWeight(c, s);
  }

  lemma StepBounded(c: PostRun, s: RunState)
    requires s.queue != [] && ValidTable(s.table) && RetriesBounded(c.retryCount, s.retries)
    ensures var s' := Step(c, s);
      ValidTable(s'.table) && RetriesBounded(c.retryCount, s'.retries)
  {
  }

  lemma StepWeight(c: PostRun, s: RunState)
    requires s.queue != [] && ValidTable(s.table) && RetriesBounded(c.retryCount, s.retries)
    ensures var s' := Step(c, s);
      Weight(c.retryCount, s'.retries, s'.queue) < Weight(c.retryCount, s.retries, s.queue)
  {
    var row := s.queue[0];
    var rest := s.queue[1..];
    var retried := Get(s.retries, row.id);
    assert retried <= c.retryCount;
    assert Weight(c.retryCount, s.retries, s.queue) == c.retryCount + 1 - retried + Weight(c.retryCount, s.retries, rest);
    if !Skipped(c, row) && !Succeeded(c.attempt(s.count + 1, row)) && retried < c.retryCount {
      StepRequeues(c, s);
      var raised := s.retries[row.id := retried + 1];
      WeightAppend(c.retryCount, raised, rest, [row]);
      WeightRaise(c.retryCount, s.retries, row.id, rest);
      assert Weight(c.retryCount, raised, [row]) == c.retryCount - retried;
    } else {
      StepDrops(c, s);
    }
  }

  /** A step that tries its row: the try is recorded, and the row leaves the queue
      on success or when its budget is spent, or goes to the back with one more retry. */
  lemma TriedShape(c: PostRun, s: RunState)
    requires s.queue != [] && ValidTable(s.table) && !Skipped(c, s.queue[0])
    ensures var row := s.queue[0]; var count := s.count + 1; var a := c.attempt(count, row);
      var s' := Step(c, s);
      s'.table == Recorded(s.table, row.id, a, c.clock(count)) && s'.count == count
      && s'.tries == s.tries[row.id := TriesOf(s.tries, row.id) + [count]]
      && (Succeeded(a) ==> s'.queue == s.queue[1..] && s'.retries == s.retries
                           && s'.tally == s.tally.(uploaded := s.tally.uploaded + 1))
      && (!Succeeded(a) && Get(s.retries, row.id) < c.retryCount ==>
            s'.queue == s.queue[1..] + [row] && s'.retries == s.retries[row.id := Get(s.retries, row.id) + 1]
            && s'.tally == s.tally)
      && (!Succeeded(a) && Get(s.retries, row.id) >= c.retryCount ==>
            s'.queue == s.queue[1..] && s'.retries == s.retries && s'.tally == s.tally.(failed := s.tally.failed + 1))
  {
  }

  /** A failed row with budget left goes to the back of the queue, one more retry counted. */
  lemma StepRequeues(c: PostRun, s: RunState)
    requires s.queue != [] && ValidTable(s.table)
    requires !Skipped(c, s.queue[0]) && !Succeeded(c.attempt(s.count + 1, s.queue[0]))
    requires Get(s.retries, s.queue[0].id) < c.retryCount
    ensures var s' := Step(c, s); var row := s.queue[0];
      s'.queue == s.queue[1..] + [row] && s'.retries == s.retries[row.id := Get(s.retries, row.id) + 1]
  {
  }

  /** Otherwise the row leaves the queue and the retry counts stay. */
  lemma StepDrops(c: PostRun, s: RunState)
    requires s.queue != [] && ValidTable(s.table)
    requires Skipped(c, s.queue[0]) || Succeeded(c.attempt(s.count + 1, s.queue[0]))
      || Get(s.retries, s.queue[0].id) >= c.retryCount
    ensures var s' := Step(c, s);
      s'.queue == s.queue[1..] && s'.retries == s.retries
  {
  }

  /** The whole loop, from state `s` until the queue is empty. */
  function Run(c: PostRun, s: RunState): (r: RunState)
    requires ValidTable(s.table) && RetriesBounded(c.retryCount, s.retries)
    ensures r.queue == [] && ValidTable(r.table)
    decreases Weight(c.retryCount, s.retries, s.queue)
  {
    if s.queue == [] then s
    else
      StepDecreases(c, s);
      Run(c, Step(c, s))
  }

  /** Before the loop: the selection, nothing counted, nothing tried. */
  function Initial(t: Table): RunState {
    RunState(t, SelectUnsynchronized(t), map[], 0, Tally(0, 0, 0), map[])
  }

  /** `runPost(dbPath, excludeVideos, quietSuccess, retryCount)` against the catalog
      stored at `dbPath` (`None` when the file does not exist yet): the counters it
      logs and the catalog it leaves behind. */
  method RunPost(stored: Option<Table>, excludeVideos: bool, retryCount: nat,
                 attempt: (nat, ImageRow) -> Attempt, clock: nat -> Timestamp)
    returns (tally: Tally, persisted: Table)
    requires stored.Some? ==> ValidTable(stored.value)
    ensures var final := Run(PostRun(excludeVideos, retryCount, attempt, clock), Initial(stored.GetOr(EMPTY)));
      tally == final.tally && persisted == final.table
  {
    var c := PostRun(excludeVideos, retryCount, attempt, clock);
    var catalog := new Catalog.Open(stored);
    ghost var start := Initial(catalog.Contents());
    var rows := SelectUnsynchronized(catalog.Contents());
    tally := Tally(0, 0, 0);

    var count := 0;
    var queue := rows;
    var retryCounts: map<nat, nat> := map[];
    ghost var tries: map<nat, seq<nat>> := map[];
    while queue != []
      invariant catalog.Valid() && RetriesBounded(retryCount, retryCounts)
      invariant Run(c, RunState(catalog.Contents(), queue, retryCounts, count, tally, tries)) == Run(c, start)
      decreases Weight(retryCount, retryCounts, queue)
    {
      ghost var pre := RunState(catalog.Contents(), queue, retryCounts, count, tally, tries);
      StepDecreases(c, pre);
      assert Run(c, pre) == Run(c, Step(c, pre));
      queue, retryCounts, count, tally, tries := TakeNext(c, catalog, queue, retryCounts, count, tally, tries);
    }
    persisted := catalog.Contents();
  }

  /** One pass of the loop body: take the head of the queue, skip it when it is an
      excluded video, otherwise try it, record the outcome and either count it or put
      it back at the end of the queue. */
  method TakeNext(c: PostRun, catalog: Catalog, queue: seq<ImageRow>, retryCounts: map<nat, nat>, count: nat,
                  tally: Tally, ghost tries: map<nat, seq<nat>>)
    returns (queue': seq<ImageRow>, retryCounts': map<nat, nat>, count': nat, tally': Tally, ghost tries': map<nat, seq<nat>>)
    requires catalog.Valid() && queue != []
    modifies catalog
    ensures catalog.Valid()
    ensures RunState(catalog.Contents(), queue', retryCounts', count', tally', tries')
      == Step(c, RunState(old(catalog.Contents()), queue, retryCounts, count, tally, tries))
  {
    var row := queue[0];
    if c.excludeVideos && IsVideoFile(row.path) {
      queue', retryCounts', count', tries' := queue[1..], retryCounts, count + 1, tries;
      tally' := tally.(skippedVideo := tally.skippedVideo + 1);
      return;
    }
    queue', retryCounts', count', tally', tries' := TryRow(c, catalog, queue, retryCounts, count, tally, tries);
  }

  /** The loop body for a row that is not skipped: try it, record the outcome, then
      count it or put it back at the end of the queue. */
  method TryRow(c: PostRun, catalog: Catalog, queue: seq<ImageRow>, retryCounts: map<nat, nat>, count: nat,
                tally: Tally, ghost tries: map<nat, seq<nat>>)
    returns (queue': seq<ImageRow>, retryCounts': map<nat, nat>, count': nat, tally': Tally, ghost tries': map<nat, seq<nat>>)
    requires catalog.Valid() && queue != [] && !Skipped(c, queue[0])
    modifies catalog
    ensures catalog.Valid()
    ensures RunState(catalog.Contents(), queue', retryCounts', count', tally', tries')
      == Step(c, RunState(old(catalog.Contents()), queue, retryCounts, count, tally, tries))
  {
    ghost var before := RunState(catalog.Contents(), queue, retryCounts, count, tally, tries);
    var row := queue[0];
    queue' := queue[1..];
    count' := count + 1;
    retryCounts' := retryCounts;
    var a := c.attempt(count', row);
    RecordAttempt(catalog, row.id, a, c.clock(count'));
    ghost var table := catalog.Contents();
    tries' := tries[row.id := TriesOf(tries, row.id) + [count']];
    if Succeeded(a) {
      tally' := tally.(uploaded := tally.uploaded + 1);
    } else {
      var retried := Get(retryCounts, row.id);
      if retried < c.retryCount {
        retryCounts' := retryCounts[row.id := retried + 1];
        queue' := queue' + [row];
        tally' := tally;
      } else {
        tally' := tally.(failed := tally.failed + 1);
      }
    }
    TriedShape(c, before);
  }

  /** The update statement of one attempt: `updateFailStmt` when the file is missing
      or the request failed, `updateSuccessStmt` when it succeeded. */
  method RecordAttempt(catalog: Catalog, id: nat, a: Attempt, now: Timestamp)
    requires catalog.Valid()
    modifies catalog
    ensures catalog.Valid()
    ensures catalog.Contents() == Recorded(old(catalog.Contents()), id, a, now)
  {
    if a.FileMissing? {
      catalog.UpdateFail(id, None, FILE_NOT_FOUND, now);
    } else if a.result.success {
      catalog.UpdateSuccess(id, a.result.statusCode, now);
    } else {
      catalog.UpdateFail(id, a.result.statusCode, a.result.errorMessage.GetOr(UNKNOWN_ERROR), now);
    }
  }
}
