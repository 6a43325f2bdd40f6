/** What a `runPost` loop guarantees, proved about `Post.Run` from the selection on:
    every selected row is settled exactly once (uploaded, given up, or skipped as a
    video), the counters count exactly those rows, each row's final columns are the
    effect of its last attempt, a row is tried at most `retryCount + 1` times and
    given up only after that many failures, and the first pass follows the order of
    the selection query. */
module PostProperties {
  import opened Wrappers
  import opened Types
  import opened Db
  import opened Post

  function Last(ts: seq<nat>): nat
    requires ts != []
  {
    ts[|ts| - 1]
  }

  predicate Increasing(ts: seq<nat>) {
    forall i, j :: 0 <= i < j < |ts| ==> ts[i] < ts[j]
  }

  /** Every try of `r` but the last one failed. */
  predicate EarlierFailed(c: PostRun, r: ImageRow, ts: seq<nat>) {
    forall i :: 0 <= i < |ts| - 1 ==> !Succeeded(c.attempt(ts[i], r))
  }

  /** What the selection query promises the loop: the rows it returns exist, are not
      yet uploaded, carry their own columns, and are distinct. */
  ghost predicate SelectionFacts(t0: Table, S: seq<ImageRow>) {
    ValidTable(t0)
    && (forall k :: 0 <= k < |S| ==>
          S[k].id in t0.rows && t0.rows[S[k].id].status != Uploaded && S[k] == ImageRowOf(S[k].id, t0.rows[S[k].id]))
    && (forall i, j :: 0 <= i < j < |S| ==> S[i].id != S[j].id)
  }

  lemma SelectionFactsHold(t0: Table)
    requires ValidTable(t0)
    ensures SelectionFacts(t0, SelectUnsynchronized(t0))
  {
    var S := SelectUnsynchronized(t0);
    SelectUnsynchronizedIsSelection(t0);
    forall i, j | 0 <= i < j < |S|
      ensures S[i].id != S[j].id
    {
      assert OrderedBefore(t0, S[i], S[j], true);
    }
  }

  // ---------------------------------------------------------------- the loop invariant

  /** A row the loop has not touched: never tried, no retry counted, columns as stored. */
  predicate Untouched(r: ImageRow, row0: Row, s: RunState) {
    r.id !in s.tries && Get(s.retries, r.id) == 0 && r.id in s.table.rows && s.table.rows[r.id] == row0
  }

  /** A row the loop has tried, first at step `k + 1` (its place in the selection):
      its tries, and its columns as its last try left them ... */
  predicate TriedHistory(c: PostRun, r: ImageRow, row0: Row, s: RunState, k: nat) {
    r.id in s.tries && r.id in s.table.rows &&
    var ts := s.tries[r.id];
    1 <= |ts| <= c.retryCount + 1 && ts[0] == k + 1 && Increasing(ts) && Last(ts) <= s.count
    && EarlierFailed(c, r, ts)
    && s.table.rows[r.id] == AttemptEffect(row0, c.attempt(Last(ts), r), c.clock(Last(ts)))
  }

  /** ... and whether it waits for a retry: exactly when its last try failed and the
      budget is not spent; every failure but a final one was counted as a retry. */
  predicate TriedQueue(c: PostRun, r: ImageRow, s: RunState)
    requires r.id in s.tries && s.tries[r.id] != []
  {
    var ts := s.tries[r.id];
    (r in s.queue <==> !Succeeded(c.attempt(Last(ts), r)) && |ts| <= c.retryCount)
    && Get(s.retries, r.id) == (if r in s.queue then |ts| else |ts| - 1)
  }

  predicate Tried(c: PostRun, r: ImageRow, row0: Row, s: RunState, k: nat) {
    TriedHistory(c, r, row0, s, k) && TriedQueue(c, r, s)
  }

  /** The state of the `k`-th selected row: not reached yet, skipped, or tried. */
  ghost predicate RowInv(c: PostRun, t0: Table, S: seq<ImageRow>, s: RunState, k: nat)
    requires k < |S|
  {
    var r := S[k];
    r.id in t0.rows &&
    if s.count <= k then Untouched(r, t0.rows[r.id], s)
    else if Skipped(c, r) then Untouched(r, t0.rows[r.id], s) && r !in s.queue
    else Tried(c, r, t0.rows[r.id], s, k)
  }

  datatype Fate = Waiting | SkippedVideo | UploadedOk | GaveUp

  /** Which counter, if any, the `k`-th selected row has been counted in. */
  function FateOf(c: PostRun, S: seq<ImageRow>, s: RunState, k: nat): Fate
    requires k < |S|
  {
    var r := S[k];
    if s.count <= k then Waiting
    else if Skipped(c, r) then SkippedVideo
    else if r.id !in s.tries || s.tries[r.id] == [] then Waiting
    else if Succeeded(c.attempt(Last(s.tries[r.id]), r)) then UploadedOk
    else if |s.tries[r.id]| > c.retryCount then GaveUp
    else Waiting
  }

  function Those(c: PostRun, S: seq<ImageRow>, s: RunState, f: Fate): set<nat> {
    set k | 0 <= k < |S| && FateOf(c, S, s, k) == f
  }

  /** The loop only ever updates selected rows, by id. */
  predicate TableShape(t0: Table, t: Table) {
    ValidTable(t) && t.nextId == t0.nextId && t.rows.Keys == t0.rows.Keys
    && forall id :: id in t0.rows && t0.rows[id].status == Uploaded ==> t.rows[id] == t0.rows[id]
  }

  /** The queue holds selected rows, each at most once. */
  ghost predicate QueueFromSelection(S: seq<ImageRow>, q: seq<ImageRow>) {
    (forall i :: 0 <= i < |q| ==> q[i] in S)
    && (forall i, j :: 0 <= i < j < |q| ==> q[i].id != q[j].id)
  }

  /** The rows not reached yet wait at the head of the queue, in selection order. */
  predicate Fifo(S: seq<ImageRow>, s: RunState) {
    s.count <= |S| ==> |S| - s.count <= |s.queue| && forall i :: 0 <= i < |S| - s.count ==> s.queue[i] == S[s.count + i]
  }

  ghost predicate Inv(c: PostRun, t0: Table, S: seq<ImageRow>, s: RunState) {
    SelectionFacts(t0, S) && TableShape(t0, s.table) && RetriesBounded(c.retryCount, s.retries)
    && QueueFromSelection(S, s.queue) && Fifo(S, s)
    && (forall k :: 0 <= k < |S| ==> RowInv(c, t0, S, s, k))
    && s.tally == Tally(|Those(c, S, s, UploadedOk)|, |Those(c, S, s, GaveUp)|, |Those(c, S, s, SkippedVideo)|)
  }

  lemma InitialInv(c: PostRun, t0: Table)
    requires ValidTable(t0)
    ensures Inv(c, t0, SelectUnsynchronized(t0), Initial(t0))
  {
    var S := SelectUnsynchronized(t0);
    var s := Initial(t0);
    SelectionFactsHold(t0);
    assert QueueFromSelection(S, s.queue);
    assert Fifo(S, s);
    assert TableShape(t0, s.table);
    forall k | 0 <= k < |S|
      ensures RowInv(c, t0, S, s, k) && FateOf(c, S, s, k) == Waiting
    {
    }
    forall f | f != Waiting
      ensures Those(c, S, s, f) == {}
    {
    }
  }

  // ---------------------------------------------------------------- one step

  /** What a step changes: the head row's entries only, the count by one, and the
      queue by its head (which may come back at the end). */
  lemma StepFrame(c: PostRun, s: RunState)
    requires s.queue != [] && ValidTable(s.table)
    ensures var s' := Step(c, s); var row := s.queue[0];
      s'.count == s.count + 1
      && (s'.queue == s.queue[1..] || s'.queue == s.queue[1..] + [row])
      && (forall id :: id != row.id ==> (id in s'.tries <==> id in s.tries) && Get(s'.retries, id) == Get(s.retries, id))
      && (forall id :: id != row.id && id in s.tries ==> s'.tries[id] == s.tries[id])
      && ValidTable(s'.table) && s'.table.nextId == s.table.nextId && s'.table.rows.Keys == s.table.rows.Keys
      && (forall id :: id in s.table.rows && id != row.id ==> s'.table.rows[id] == s.table.rows[id])
  {
    StepQueue(c, s);
    StepEntries(c, s);
    StepTable(c, s);
  }

  lemma StepQueue(c: PostRun, s: RunState)
    requires s.queue != [] && ValidTable(s.table)
    ensures var s' := Step(c, s);
      s'.count == s.count + 1 && (s'.queue == s.queue[1..] || s'.queue == s.queue[1..] + [s.queue[0]])
  {
  }

  lemma StepEntries(c: PostRun, s: RunState)
    requires s.queue != [] && ValidTable(s.table)
    ensures var s' := Step(c, s); var row := s.queue[0];
      (forall id :: id != row.id ==> (id in s'.tries <==> id in s.tries) && Get(s'.retries, id) == Get(s.retries, id))
      && (forall id :: id != row.id && id in s.tries ==> s'.tries[id] == s.tries[id])
  {
  }

  lemma StepTable(c: PostRun, s: RunState)
    requires s.queue != [] && ValidTable(s.table)
    ensures var s' := Step(c, s); var row := s.queue[0];
      ValidTable(s'.table) && s'.table.nextId == s.table.nextId && s'.table.rows.Keys == s.table.rows.Keys
      && (forall id :: id in s.table.rows && id != row.id ==> s'.table.rows[id] == s.table.rows[id])
  {
  }

  /** The row taken off the queue is the `kp`-th selected row; it is the next one in
      selection order while the first pass lasts. */
  lemma PoppedIndex(c: PostRun, t0: Table, S: seq<ImageRow>, s: RunState) returns (kp: nat)
    requires Inv(c, t0, S, s) && s.queue != []
    ensures kp < |S| && s.queue[0] == S[kp] && kp <= s.count
    ensures s.count < |S| ==> kp == s.count
  {
    if s.count < |S| {
      kp := s.count;
    } else {
      assert s.queue[0] in S;
      kp :| 0 <= kp < |S| && s.queue[0] == S[kp];
    }
  }

  /** The rows other than the one taken off the queue keep their state and counter. */
  lemma RowUnaffected(c: PostRun, t0: Table, S: seq<ImageRow>, s: RunState, s': RunState, k: nat)
    requires k < |S| && RowInv(c, t0, S, s, k)
    requires s.queue != [] && S[k].id != s.queue[0].id && k != s.count && s'.count == s.count + 1
    requires s'.queue == s.queue[1..] || s'.queue == s.queue[1..] + [s.queue[0]]
    requires S[k].id in s'.tries <==> S[k].id in s.tries
    requires S[k].id in s.tries ==> s'.tries[S[k].id] == s.tries[S[k].id]
    requires Get(s'.retries, S[k].id) == Get(s.retries, S[k].id)
    requires S[k].id in s.table.rows ==> S[k].id in s'.table.rows && s'.table.rows[S[k].id] == s.table.rows[S[k].id]
    ensures RowInv(c, t0, S, s', k) && FateOf(c, S, s', k) == FateOf(c, S, s, k)
  {
    var r := S[k];
    assert r in s'.queue <==> r in s.queue by {
      assert r != s.queue[0];
      assert s.queue == [s.queue[0]] + s.queue[1..];
    }
  }

  /** How the counters move with the fate of the row a step settles. */
  function Bump(t: Tally, f: Fate): Tally {
    match f
    case Waiting => t
    case SkippedVideo => t.(skippedVideo := t.skippedVideo + 1)
    case UploadedOk => t.(uploaded := t.uploaded + 1)
    case GaveUp => t.(failed := t.failed + 1)
  }

  /** The history of the row taken off the queue grows by this step. */
  lemma HistoryAfterTry(c: PostRun, r: ImageRow, row0: Row, s: RunState, s': RunState, k: nat)
    requires ValidTable(s.table) && r.id in s.table.rows && k <= s.count
    requires k == s.count ==> r.id !in s.tries && s.table.rows[r.id] == row0
    requires k < s.count ==>
      (TriedHistory(c, r, row0, s, k) && !Succeeded(c.attempt(Last(s.tries[r.id]), r)) && |s.tries[r.id]| <= c.retryCount)
    requires s'.count == s.count + 1
    requires s'.tries == s.tries[r.id := TriesOf(s.tries, r.id) + [s'.count]]
    requires s'.table == Recorded(s.table, r.id, c.attempt(s'.count, r), c.clock(s'.count))
    ensures TriedHistory(c, r, row0, s', k)
  {
    var ts := TriesOf(s.tries, r.id);
    var ts' := ts + [s'.count];
    var a := c.attempt(s'.count, r);
    assert s'.table.rows[r.id] == AttemptEffect(s.table.rows[r.id], a, c.clock(s'.count));
    if k == s.count {
      assert ts' == [k + 1];
    } else {
      AttemptOverwrites(row0, c.attempt(Last(ts), r), c.clock(Last(ts)), a, c.clock(s'.count));
      assert Increasing(ts') by {
        forall i, j | 0 <= i < j < |ts'|
          ensures ts'[i] < ts'[j]
        {
          if j < |ts| {
            assert ts'[i] == ts[i] && ts'[j] == ts[j];
          } else {
            assert ts'[i] == ts[i] && ts[i] <= Last(ts);
          }
        }
      }
      assert EarlierFailed(c, r, ts') by {
        forall i | 0 <= i < |ts'| - 1
          ensures !Succeeded(c.attempt(ts'[i], r))
        {
          assert ts'[i] == ts[i];
        }
      }
    }
  }

  /** The row taken off the queue: its new state, and the counter it lands in. */
  lemma PoppedRow(c: PostRun, t0: Table, S: seq<ImageRow>, s: RunState, kp: nat)
    requires ValidTable(s.table) && s.queue != []
    requires kp < |S| && s.queue[0] == S[kp] && kp <= s.count && S[kp] !in s.queue[1..]
    requires RowInv(c, t0, S, s, kp)
    ensures RowInv(c, t0, S, Step(c, s), kp) && FateOf(c, S, s, kp) == Waiting
    ensures Step(c, s).tally == Bump(s.tally, FateOf(c, S, Step(c, s), kp))
  {
    if Skipped(c, S[kp]) {
      PoppedSkipped(c, t0, S, s, kp);
    } else {
      PoppedTried(c, t0, S, s, kp);
    }
  }

  lemma PoppedSkipped(c: PostRun, t0: Table, S: seq<ImageRow>, s: RunState, kp: nat)
    requires ValidTable(s.table) && s.queue != []
    requires kp < |S| && s.queue[0] == S[kp] && kp <= s.count && S[kp] !in s.queue[1..]
    requires RowInv(c, t0, S, s, kp) && Skipped(c, S[kp])
    ensures RowInv(c, t0, S, Step(c, s), kp) && FateOf(c, S, s, kp) == Waiting
    ensures Step(c, s).tally == Bump(s.tally, FateOf(c, S, Step(c, s), kp))
  {
    var s' := Step(c, s);
    assert s' == RunState(s.table, s.queue[1..], s.retries, s.count + 1, s.tally.(skippedVideo := s.tally.skippedVideo + 1), s.tries);
  }

  lemma PoppedTried(c: PostRun, t0: Table, S: seq<ImageRow>, s: RunState, kp: nat)
    requires ValidTable(s.table) && s.queue != []
    requires kp < |S| && s.queue[0] == S[kp] && kp <= s.count && S[kp] !in s.queue[1..]
    requires RowInv(c, t0, S, s, kp) && !Skipped(c, S[kp])
    ensures RowInv(c, t0, S, Step(c, s), kp) && FateOf(c, S, s, kp) == Waiting
    ensures Step(c, s).tally == Bump(s.tally, FateOf(c, S, Step(c, s), kp))
  {
    var r := S[kp];
    var s' := Step(c, s);
    var ts := TriesOf(s.tries, r.id);
    TriedShape(c, s);
    HistoryAfterTry(c, r, t0.rows[r.id], s, s', kp);
    assert Get(s.retries, r.id) == |ts|;
    assert s'.tries[r.id] == ts + [s.count + 1];
  }

  /** Adding one settled row to the fates. */
  lemma ThoseStep(c: PostRun, S: seq<ImageRow>, s: RunState, s': RunState, kp: nat, f: Fate)
    requires kp < |S| && f != Waiting && FateOf(c, S, s, kp) == Waiting
    requires forall k :: 0 <= k < |S| && k != kp ==> FateOf(c, S, s', k) == FateOf(c, S, s, k)
    ensures |Those(c, S, s', f)| == |Those(c, S, s, f)| + (if FateOf(c, S, s', kp) == f then 1 else 0)
  {
    if FateOf(c, S, s', kp) == f {
      ThoseGrow(c, S, s, s', kp, f);
    } else {
      ThoseKept(c, S, s, s', kp, f);
    }
  }

  lemma ThoseGrow(c: PostRun, S: seq<ImageRow>, s: RunState, s': RunState, kp: nat, f: Fate)
    requires kp < |S| && f != Waiting && FateOf(c, S, s, kp) == Waiting && FateOf(c, S, s', kp) == f
    requires forall k :: 0 <= k < |S| && k != kp ==> FateOf(c, S, s', k) == FateOf(c, S, s, k)
    ensures Those(c, S, s', f) == Those(c, S, s, f) + {kp} && kp !in Those(c, S, s, f)
  {
    var before, after := Those(c, S, s, f), Those(c, S, s', f);
    forall k
      ensures k in after <==> k in before + {kp}
    {
    }
  }

  lemma ThoseKept(c: PostRun, S: seq<ImageRow>, s: RunState, s': RunState, kp: nat, f: Fate)
    requires kp < |S| && f != Waiting && FateOf(c, S, s, kp) == Waiting && FateOf(c, S, s', kp) != f
    requires forall k :: 0 <= k < |S| && k != kp ==> FateOf(c, S, s', k) == FateOf(c, S, s, k)
    ensures Those(c, S, s', f) == Those(c, S, s, f)
  {
    var before, after := Those(c, S, s, f), Those(c, S, s', f);
    forall k
      ensures k in after <==> k in before
    {
    }
  }

  lemma StepInv(c: PostRun, t0: Table, S: seq<ImageRow>, s: RunState)
    requires Inv(c, t0, S, s) && s.queue != []
    ensures Inv(c, t0, S, Step(c, s))
  {
    var s' := Step(c, s);
    var row := s.queue[0];
    StepFrame(c, s);
    StepDecreases(c, s);
    StepRows(c, t0, S, s);
    assert row in S;
    assert t0.rows[row.id].status != Uploaded;
    ShapeAfterStep(t0, s.table, s'.table, row.id);
    QueueAfterStep(S, s.queue, s'.queue);
    FifoAfterStep(S, s, s');
  }

  /** Every selected row keeps its invariant, and the counters follow the fates. */
  lemma StepRows(c: PostRun, t0: Table, S: seq<ImageRow>, s: RunState)
    requires Inv(c, t0, S, s) && s.queue != []
    ensures forall k :: 0 <= k < |S| ==> RowInv(c, t0, S, Step(c, s), k)
    ensures Step(c, s).tally
      == Tally(|Those(c, S, Step(c, s), UploadedOk)|, |Those(c, S, Step(c, s), GaveUp)|, |Those(c, S, Step(c, s), SkippedVideo)|)
  {
    var s' := Step(c, s);
    var kp := StepOthers(c, t0, S, s);
    ThoseStep(c, S, s, s', kp, UploadedOk);
    ThoseStep(c, S, s, s', kp, GaveUp);
    ThoseStep(c, S, s, s', kp, SkippedVideo);
  }

  /** The row a step takes, at selection position `kp`, changes state as `PoppedRow`
      says; every other selected row keeps its state and its fate. */
  lemma StepOthers(c: PostRun, t0: Table, S: seq<ImageRow>, s: RunState) returns (kp: nat)
    requires Inv(c, t0, S, s) && s.queue != []
    ensures kp < |S| && FateOf(c, S, s, kp) == Waiting && RowInv(c, t0, S, Step(c, s), kp)
    ensures Step(c, s).tally == Bump(s.tally, FateOf(c, S, Step(c, s), kp))
    ensures forall k :: 0 <= k < |S| && k != kp ==>
      RowInv(c, t0, S, Step(c, s), k) && FateOf(c, S, Step(c, s), k) == FateOf(c, S, s, k)
  {
    var s' := Step(c, s);
    kp := PoppedIndex(c, t0, S, s);
    var row := s.queue[0];
    StepFrame(c, s);
    assert S[kp] !in s.queue[1..] by {
      forall i | 0 <= i < |s.queue| - 1
        ensures s.queue[1..][i] != row
      {
        assert s.queue[1..][i] == s.queue[i + 1];
      }
    }
    PoppedRow(c, t0, S, s, kp);
    forall k | 0 <= k < |S| && k != kp
      ensures RowInv(c, t0, S, s', k) && FateOf(c, S, s', k) == FateOf(c, S, s, k)
    {
      assert S[k].id != row.id;
      RowUnaffected(c, t0, S, s, s', k);
    }
  }

  lemma ShapeAfterStep(t0: Table, t: Table, t': Table, id: nat)
    requires TableShape(t0, t) && ValidTable(t') && t'.nextId == t.nextId && t'.rows.Keys == t.rows.Keys
    requires forall other :: other in t.rows && other != id ==> t'.rows[other] == t.rows[other]
    requires id in t0.rows ==> t0.rows[id].status != Uploaded
    ensures TableShape(t0, t')
  {
  }

  lemma QueueAfterStep(S: seq<ImageRow>, q: seq<ImageRow>, q': seq<ImageRow>)
    requires QueueFromSelection(S, q) && q != []
    requires q' == q[1..] || q' == q[1..] + [q[0]]
    ensures QueueFromSelection(S, q')
  {
    var rest := q[1..];
    assert forall i :: 0 <= i < |rest| ==> rest[i] == q[i + 1];
    if q' != rest {
      assert forall i :: 0 <= i < |rest| ==> rest[i].id != q[0].id;
    }
  }

  lemma FifoAfterStep(S: seq<ImageRow>, s: RunState, s': RunState)
    requires Fifo(S, s) && s.queue != [] && s'.count == s.count + 1
    requires s'.queue == s.queue[1..] || s'.queue == s.queue[1..] + [s.queue[0]]
    ensures Fifo(S, s')
  {
    if s'.count <= |S| {
      assert forall i :: 0 <= i < |S| - s'.count ==> s'.queue[i] == s.queue[i + 1];
    }
  }

  /** The invariant holds when the loop ends. */
  lemma {:induction false} RunKeepsInv(c: PostRun, t0: Table, S: seq<ImageRow>, s: RunState)
    requires Inv(c, t0, S, s)
    ensures Inv(c, t0, S, Run(c, s))
    decreases Weight(c.retryCount, s.retries, s.queue)
  {
    if s.queue != [] {
      StepInv(c, t0, S, s);
      StepDecreases(c, s);
      RunKeepsInv(c, t0, S, Step(c, s));
    }
  }

  /** With the queue empty, every selected row has been counted once. */
  lemma AllSettled(c: PostRun, t0: Table, S: seq<ImageRow>, s: RunState, k: nat)
    requires Inv(c, t0, S, s) && s.queue == [] && k < |S|
    ensures s.count > k && FateOf(c, S, s, k) != Waiting
  {
    assert RowInv(c, t0, S, s, k);
  }

  // ---------------------------------------------------------------- the finished run

  lemma FinalFates(c: PostRun, t0: Table, S: seq<ImageRow>, f: RunState, k: nat)
    requires Inv(c, t0, S, f) && f.queue == [] && k < |S|
    ensures S[k].id in f.table.rows
    ensures FateOf(c, S, f, k) == UploadedOk <==> f.table.rows[S[k].id].status == Uploaded
    ensures FateOf(c, S, f, k) == GaveUp <==> !Skipped(c, S[k]) && f.table.rows[S[k].id].status == Failed
    ensures FateOf(c, S, f, k) == SkippedVideo <==> Skipped(c, S[k])
    ensures FateOf(c, S, f, k) != Waiting
  {
    AllSettled(c, t0, S, f, k);
    assert RowInv(c, t0, S, f, k);
  }

  /** The positions of a sequence of length `n`. */
  function Indices(n: nat): (r: set<int>)
    ensures forall k :: k in r <==> 0 <= k < n
    ensures |r| == n
  {
    if n == 0 then {} else Indices(n - 1) + {n - 1}
  }

  /** The state `Run` ends in from the initial state: the invariant holds and the queue is empty. */
  lemma Finished(c: PostRun, t0: Table) returns (f: RunState)
    requires ValidTable(t0)
    ensures f == Run(c, Initial(t0))
    ensures Inv(c, t0, SelectUnsynchronized(t0), f) && f.queue == []
  {
    InitialInv(c, t0);
    RunKeepsInv(c, t0, SelectUnsynchronized(t0), Initial(t0));
    f := Run(c, Initial(t0));
  }

  lemma ThoseUploaded(c: PostRun, t0: Table, S: seq<ImageRow>, f: RunState)
    requires Inv(c, t0, S, f) && f.queue == []
    ensures Those(c, S, f, UploadedOk)
      == set k | 0 <= k < |S| && S[k].id in f.table.rows && f.table.rows[S[k].id].status == Uploaded
  {
    forall k | 0 <= k < |S|
      ensures FateOf(c, S, f, k) == UploadedOk <==> S[k].id in f.table.rows && f.table.rows[S[k].id].status == Uploaded
    {
      FinalFates(c, t0, S, f, k);
    }
  }

  lemma ThoseGaveUp(c: PostRun, t0: Table, S: seq<ImageRow>, f: RunState)
    requires Inv(c, t0, S, f) && f.queue == []
    ensures Those(c, S, f, GaveUp)
      == set k | 0 <= k < |S| && !Skipped(c, S[k]) && S[k].id in f.table.rows && f.table.rows[S[k].id].status == Failed
  {
    forall k | 0 <= k < |S|
      ensures FateOf(c, S, f, k) == GaveUp
        <==> !Skipped(c, S[k]) && S[k].id in f.table.rows && f.table.rows[S[k].id].status == Failed
    {
      FinalFates(c, t0, S, f, k);
    }
  }

  lemma ThoseSkipped(c: PostRun, t0: Table, S: seq<ImageRow>, f: RunState)
    requires Inv(c, t0, S, f) && f.queue == []
    ensures Those(c, S, f, SkippedVideo) == set k | 0 <= k < |S| && Skipped(c, S[k])
  {
    forall k | 0 <= k < |S|
      ensures FateOf(c, S, f, k) == SkippedVideo <==> Skipped(c, S[k])
    {
      FinalFates(c, t0, S, f, k);
    }
  }

  /** When no selected row waits, every selected row sits in exactly one counter. */
  lemma ThosePartition(c: PostRun, S: seq<ImageRow>, f: RunState)
    requires forall k :: 0 <= k < |S| ==> FateOf(c, S, f, k) != Waiting
    ensures |Those(c, S, f, UploadedOk)| + |Those(c, S, f, GaveUp)| + |Those(c, S, f, SkippedVideo)| == |S|
  {
    var U, G, V := Those(c, S, f, UploadedOk), Those(c, S, f, GaveUp), Those(c, S, f, SkippedVideo);
    var all := Indices(|S|);
    assert U + G + V == all;
    assert U * G == {} && (U + G) * V == {};
  }

  lemma FinalRow(c: PostRun, t0: Table, S: seq<ImageRow>, f: RunState, k: nat)
    requires Inv(c, t0, S, f) && f.queue == [] && k < |S|
    ensures S[k].id in t0.rows
    ensures Skipped(c, S[k]) ==> S[k].id !in f.tries && f.table.rows[S[k].id] == t0.rows[S[k].id]
    ensures !Skipped(c, S[k]) ==>
      TriedHistory(c, S[k], t0.rows[S[k].id], f, k)
      && (!Succeeded(c.attempt(Last(f.tries[S[k].id]), S[k])) ==> |f.tries[S[k].id]| == c.retryCount + 1)
  {
    AllSettled(c, t0, S, f, k);
    assert RowInv(c, t0, S, f, k);
  }

  lemma FinalRows(c: PostRun, t0: Table, S: seq<ImageRow>, f: RunState)
    requires Inv(c, t0, S, f) && f.queue == []
    ensures ValidTable(f.table) && f.table.nextId == t0.nextId && f.table.rows.Keys == t0.rows.Keys
    ensures forall id :: id in t0.rows && t0.rows[id].status == Uploaded ==> f.table.rows[id] == t0.rows[id]
    ensures forall k :: 0 <= k < |S| && Skipped(c, S[k]) ==>
      S[k].id in t0.rows && S[k].id !in f.tries && f.table.rows[S[k].id] == t0.rows[S[k].id]
    ensures forall k :: 0 <= k < |S| && !Skipped(c, S[k]) ==>
      S[k].id in t0.rows && TriedHistory(c, S[k], t0.rows[S[k].id], f, k)
      && (!Succeeded(c.attempt(Last(f.tries[S[k].id]), S[k])) ==> |f.tries[S[k].id]| == c.retryCount + 1)
  {
    forall k | 0 <= k < |S|
      ensures S[k].id in t0.rows
      ensures Skipped(c, S[k]) ==> S[k].id !in f.tries && f.table.rows[S[k].id] == t0.rows[S[k].id]
      ensures !Skipped(c, S[k]) ==>
        TriedHistory(c, S[k], t0.rows[S[k].id], f, k)
        && (!Succeeded(c.attempt(Last(f.tries[S[k].id]), S[k])) ==> |f.tries[S[k].id]| == c.retryCount + 1)
    {
      FinalRow(c, t0, S, f, k);
    }
  }

  /** The counters `runPost` logs: every row the selection returned is counted once,
      `uploaded` counts the rows left uploaded, `failed` the rows tried and left
      failed, `skipped_video` the videos passed over under `--exclude-videos`. */
  lemma RunPostCounts(c: PostRun, t0: Table)
    requires ValidTable(t0)
    ensures var S := SelectUnsynchronized(t0); var f := Run(c, Initial(t0));
      f.tally.uploaded + f.tally.failed + f.tally.skippedVideo == |S|
      && f.tally.uploaded
        == |set k | 0 <= k < |S| && S[k].id in f.table.rows && f.table.rows[S[k].id].status == Uploaded|
      && f.tally.failed
        == |set k | 0 <= k < |S| && !Skipped(c, S[k]) && S[k].id in f.table.rows && f.table.rows[S[k].id].status == Failed|
      && f.tally.skippedVideo == |set k | 0 <= k < |S| && Skipped(c, S[k])|
  {
    var S := SelectUnsynchronized(t0);
    var f := Finished(c, t0);
    forall k | 0 <= k < |S|
      ensures FateOf(c, S, f, k) != Waiting
    {
      AllSettled(c, t0, S, f, k);
    }
    ThosePartition(c, S, f);
    ThoseUploaded(c, t0, S, f);
    ThoseGaveUp(c, t0, S, f);
    ThoseSkipped(c, t0, S, f);
  }

  /** The catalog `runPost` leaves: only selected rows change, a skipped video is never
      tried, and every other selected row was first tried at step `k + 1` (its place in
      the selection), at most `retryCount + 1` times, every try but the last failed,
      its columns are what its last try wrote, and it is left failed only when all
      `retryCount + 1` tries failed. */
  lemma RunPostRows(c: PostRun, t0: Table)
    requires ValidTable(t0)
    ensures var S := SelectUnsynchronized(t0); var f := Run(c, Initial(t0));
      ValidTable(f.table) && f.table.nextId == t0.nextId && f.table.rows.Keys == t0.rows.Keys
      && (forall id :: id in t0.rows && t0.rows[id].status == Uploaded ==> f.table.rows[id] == t0.rows[id])
      && (forall k :: 0 <= k < |S| && Skipped(c, S[k]) ==>
            S[k].id in t0.rows && S[k].id !in f.tries && f.table.rows[S[k].id] == t0.rows[S[k].id])
      && (forall k :: 0 <= k < |S| && !Skipped(c, S[k]) ==>
            S[k].id in t0.rows && TriedHistory(c, S[k], t0.rows[S[k].id], f, k)
            && (!Succeeded(c.attempt(Last(f.tries[S[k].id]), S[k])) ==> |f.tries[S[k].id]| == c.retryCount + 1))
  {
    var f := Finished(c, t0);
    FinalRows(c, t0, SelectUnsynchronized(t0), f);
  }
}
