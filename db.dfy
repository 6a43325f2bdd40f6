/** The catalog store: the `images` table that `initDb` (src/db.ts) creates, and the
    statements the commands run against it.

    The table is a map from the AUTOINCREMENT id to the row, plus the next id to hand
    out. The pure functions below give the effect of each statement on a `Table`
    value; the class `Catalog` holds an open catalog and applies them in place. */
module Db {
  import opened Wrappers
  import opened Types

  /** The `status` column: NOT NULL, one of three words. */
  datatype Status = Pending | Uploaded | Failed

  /** An ISO-8601 time stamp from `nowIso()`; its value is opaque to the model. */
  type Timestamp = string

  /** One row of `images`. NOT NULL columns are plain fields; the nullable ones
      (`status_code`, `uploaded_at`, `last_error`) are options. */
  datatype Row = Row(
    path: string,
    hash: string,
    size: nat,
    status: Status,
    statusCode: Option<int>,
    uploadedAt: Option<Timestamp>,
    lastError: Option<string>,
    updatedAt: Timestamp)

  datatype Table = Table(rows: map<nat, Row>, nextId: nat)

  /** A freshly created catalog: no rows; SQLite's AUTOINCREMENT starts at 1. */
  const EMPTY: Table := Table(map[], 1)

  predicate SameIdentity(a: Row, b: Row) {
    a.hash == b.hash && a.size == b.size
  }

  /** The UNIQUE index on (hash, size). */
  predicate IdentitiesUnique(rows: map<nat, Row>) {
    forall i, j :: i in rows && j in rows && SameIdentity(rows[i], rows[j]) ==> i == j
  }

  /** What the schema guarantees of every catalog: ids are positive and below the
      next id to be handed out, and no two rows share a (hash, size) pair. */
  predicate ValidTable(t: Table) {
    1 <= t.nextId && (forall id :: id in t.rows ==> 1 <= id < t.nextId) && IdentitiesUnique(t.rows)
  }

  predicate HasIdentity(rows: map<nat, Row>, hash: string, size: nat) {
    exists id :: id in rows && rows[id].hash == hash && rows[id].size == size
  }

  predicate HasPath(rows: map<nat, Row>, path: string) {
    exists id :: id in rows && rows[id].path == path
  }

  /** The row an INSERT creates. Omitting `status` gives the column DEFAULT 'pending';
      `last_error` is never supplied on insert. */
  function NewRow(path: string, hash: string, size: nat, status: Option<Status>,
                  statusCode: Option<int>, uploadedAt: Option<Timestamp>, now: Timestamp): (r: Row)
    ensures status.None? ==> r.status == Pending
    ensures r.lastError.None? && r.updatedAt == now
  {
    Row(path, hash, size, status.GetOr(Pending), statusCode, uploadedAt, None, now)
  }

  /** `INSERT OR IGNORE`: the row is added under the next id unless its (hash, size)
      is already present, in which case no row changes (the first writer's path stays).
      Either way the attempt takes the next id: with `AUTOINCREMENT` an ignored insert
      still advances `sqlite_sequence`, so ids can have gaps.
      The flag says whether a row was added (`changes > 0`). */
  function AfterInsertOrIgnore(t: Table, row: Row): (r: (Table, bool))
    requires ValidTable(t)
    ensures ValidTable(r.0)
    ensures r.1 <==> !HasIdentity(t.rows, row.hash, row.size)
    ensures HasIdentity(r.0.rows, row.hash, row.size)
    ensures forall id :: id in t.rows ==> id in r.0.rows && r.0.rows[id] == t.rows[id]
    ensures r.0.nextId == t.nextId + 1
    ensures r.1 ==> (r.0.rows.Keys == t.rows.Keys + {t.nextId} && r.0.rows[t.nextId] == row
      && forall id :: id in t.rows ==> id < t.nextId)
    ensures !r.1 ==> r.0.rows == t.rows
  {
    if HasIdentity(t.rows, row.hash, row.size) then (t.(nextId := t.nextId + 1), false)
    else
      var t' := Table(t.rows[t.nextId := row], t.nextId + 1);
      AddKeepsValid(t, row);
      assert t'.rows[t.nextId] == row;
      (t', true)
  }

  /** Inserting an identity the table already has changes no row and uses up one id. */
  lemma IgnoredInsert(t: Table, row: Row)
    requires ValidTable(t) && HasIdentity(t.rows, row.hash, row.size)
    ensures AfterInsertOrIgnore(t, row) == (t.(nextId := t.nextId + 1), false)
  {
  }

  /** The gap an ignored insert leaves: a row, a second row with the same identity and
      a third with a new one are stored under the next id and the one after the gap. */
  lemma IgnoredInsertLeavesGap(t: Table, a: Row, b: Row, c: Row)
    requires ValidTable(t) && !HasIdentity(t.rows, a.hash, a.size)
    requires SameIdentity(a, b) && !SameIdentity(a, c) && !HasIdentity(t.rows, c.hash, c.size)
    ensures var t1 := AfterInsertOrIgnore(t, a).0;
      var t2 := AfterInsertOrIgnore(t1, b).0;
      var t3 := AfterInsertOrIgnore(t2, c).0;
      t3.rows.Keys == t.rows.Keys + {t.nextId, t.nextId + 2} && t3.nextId == t.nextId + 3
  {
    var t1 := AfterInsertOrIgnore(t, a).0;
    assert t1.rows[t.nextId] == a;
    assert HasIdentity(t1.rows, b.hash, b.size);
    IgnoredInsert(t1, b);
    var t2 := AfterInsertOrIgnore(t1, b).0;
    assert !HasIdentity(t2.rows, c.hash, c.size) by {
      forall id | id in t2.rows ensures !(t2.rows[id].hash == c.hash && t2.rows[id].size == c.size) {
        if id == t.nextId { assert t2.rows[id] == a; }
      }
    }
  }

  /** Adding a row whose (hash, size) is new, under the next id, keeps the table valid. */
  lemma AddKeepsValid(t: Table, row: Row)
    requires ValidTable(t) && !HasIdentity(t.rows, row.hash, row.size)
    ensures ValidTable(Table(t.rows[t.nextId := row], t.nextId + 1))
  {
    var rows := t.rows[t.nextId := row];
    assert t.nextId !in t.rows;
    assert forall j :: j in t.rows ==> !SameIdentity(t.rows[j], row);
  }

  // ---------------------------------------------------------------- single-row updates

  /** `SET status = 'uploaded', status_code = ?, uploaded_at = ?, last_error = NULL, updated_at = ?` */
  function MarkUploaded(row: Row, statusCode: Option<int>, now: Timestamp): (r: Row)
    ensures SameIdentity(r, row) && r.path == row.path
    ensures r.status == Uploaded && r.lastError.None? && r.statusCode == statusCode
    ensures r.uploadedAt == Some(now) && r.updatedAt == now
  {
    row.(status := Uploaded, statusCode := statusCode, uploadedAt := Some(now), lastError := None, updatedAt := now)
  }

  /** `SET status = 'failed', status_code = ?, last_error = ?, updated_at = ?`; `uploaded_at` is kept. */
  function MarkFailed(row: Row, statusCode: Option<int>, error: string, now: Timestamp): (r: Row)
    ensures SameIdentity(r, row) && r.path == row.path && r.uploadedAt == row.uploadedAt
    ensures r.status == Failed && r.lastError == Some(error) && r.statusCode == statusCode
    ensures r.updatedAt == now
  {
    row.(status := Failed, statusCode := statusCode, lastError := Some(error), updatedAt := now)
  }

  /** `SET status = 'uploaded', status_code = COALESCE(?, status_code), uploaded_at = ?,
      last_error = NULL, updated_at = ?`: a null code keeps the stored one. */
  function MarkUploadedCoalesce(row: Row, statusCode: Option<int>, now: Timestamp): (r: Row)
    ensures SameIdentity(r, row) && r.path == row.path
    ensures r.status == Uploaded && r.lastError.None?
    ensures r.statusCode == (if statusCode.Some? then statusCode else row.statusCode)
    ensures r.uploadedAt == Some(now) && r.updatedAt == now
  {
    MarkUploaded(row, if statusCode.Some? then statusCode else row.statusCode, now)
  }

  /** `UPDATE ... WHERE id = ?` with a new value for that row; no row, no change. */
  function UpdateById(t: Table, id: nat, row: Row): (r: Table)
    requires ValidTable(t)
    requires id in t.rows ==> SameIdentity(row, t.rows[id])
    ensures ValidTable(r) && r.nextId == t.nextId && r.rows.Keys == t.rows.Keys
    ensures forall k :: k in t.rows ==> r.rows[k] == if k == id then row else t.rows[k]
  {
    if id in t.rows then Table(t.rows[id := row], t.nextId) else t
  }

  /** The ids of the rows stored under `path` (no index: `path` is not unique). */
  function IdsWithPath(t: Table, path: string): set<nat> {
    set id | id in t.rows && t.rows[id].path == path
  }

  /** A path is stored exactly when some id carries it. */
  lemma IdsWithPathEmpty(t: Table, path: string)
    ensures IdsWithPath(t, path) != {} <==> HasPath(t.rows, path)
  {
    if HasPath(t.rows, path) {
      var id :| id in t.rows && t.rows[id].path == path;
      assert id in IdsWithPath(t, path);
    }
  }

  /** The rows after marking those with `path` uploaded; the identities stay. */
  function MarkPathRows(t: Table, path: string, statusCode: Option<int>, now: Timestamp): (r: Table)
    requires ValidTable(t)
    ensures ValidTable(r) && r.nextId == t.nextId && r.rows.Keys == t.rows.Keys
    ensures forall id :: id in t.rows ==>
      r.rows[id] == if t.rows[id].path == path then MarkUploadedCoalesce(t.rows[id], statusCode, now) else t.rows[id]
  {
    var rows := map id | id in t.rows ::
      if t.rows[id].path == path then MarkUploadedCoalesce(t.rows[id], statusCode, now) else t.rows[id];
    assert forall i :: i in t.rows ==> SameIdentity(rows[i], t.rows[i]);
    Table(rows, t.nextId)
  }

  /** `UPDATE images SET <uploaded, COALESCE code> WHERE path = ?`: every row with that
      path is marked uploaded; the count is SQLite's `changes`, the number of rows matched. */
  function AfterMarkUploadedByPath(t: Table, path: string, statusCode: Option<int>, now: Timestamp): (r: (Table, nat))
    requires ValidTable(t)
    ensures ValidTable(r.0) && r.0.nextId == t.nextId && r.0.rows.Keys == t.rows.Keys
    ensures r.1 == |IdsWithPath(t, path)|
    ensures r.1 > 0 <==> HasPath(t.rows, path)
    ensures forall id :: id in t.rows ==>
      r.0.rows[id] == if t.rows[id].path == path then MarkUploadedCoalesce(t.rows[id], statusCode, now) else t.rows[id]
  {
    IdsWithPathEmpty(t, path);
    (MarkPathRows(t, path, statusCode, now), |IdsWithPath(t, path)|)
  }

  // ---------------------------------------------------------------- the selection of work

  function ImageRowOf(id: nat, row: Row): ImageRow {
    ImageRow(id, row.path, row.hash, row.size)
  }

  /** Which rows a scan keeps: those not yet uploaded (`status != 'uploaded'`; the
      status is NOT NULL, so `status IS NULL` never holds), and of these either all,
      only the non-failed ones, or only the failed ones. */
  datatype Filter = Unsynchronized | UnsynchronizedNotFailed | UnsynchronizedFailed

  predicate Keeps(f: Filter, row: Row) {
    row.status != Uploaded &&
    match f
    case Unsynchronized => true
    case UnsynchronizedNotFailed => row.status != Failed
    case UnsynchronizedFailed => row.status == Failed
  }

  /** The kept rows with ids below `n`, in ascending id order. */
  function Scan(t: Table, f: Filter, n: nat): seq<ImageRow> {
    if n == 0 then []
    else if n - 1 in t.rows && Keeps(f, t.rows[n - 1]) then Scan(t, f, n - 1) + [ImageRowOf(n - 1, t.rows[n - 1])]
    else Scan(t, f, n - 1)
  }

  /** `SELECT id, path, hash, size FROM images WHERE status IS NULL OR status != 'uploaded'
      ORDER BY CASE WHEN status = 'failed' THEN 1 ELSE 0 END, id` (src/commands/post.ts). */
  function SelectUnsynchronized(t: Table): seq<ImageRow> {
    Scan(t, UnsynchronizedNotFailed, t.nextId) + Scan(t, UnsynchronizedFailed, t.nextId)
  }

  /** The same query ordered by id alone (src/index.ts). */
  function SelectUnsynchronizedById(t: Table): seq<ImageRow> {
    Scan(t, Unsynchronized, t.nextId)
  }

  /** The sort key of the first query: failed rows after the others, then by id. */
  predicate OrderedBefore(t: Table, a: ImageRow, b: ImageRow, failedLast: bool)
    requires a.id in t.rows && b.id in t.rows
  {
    var ra := if failedLast && t.rows[a.id].status == Failed then 1 else 0;
    var rb := if failedLast && t.rows[b.id].status == Failed then 1 else 0;
    ra < rb || (ra == rb && a.id < b.id)
  }

  /** Some row of `s` carries the id. */
  predicate Lists(s: seq<ImageRow>, id: nat) {
    exists k :: 0 <= k < |s| && s[k].id == id
  }

  /** What an ordered `SELECT ... WHERE status != 'uploaded'` answers: the columns of
      exactly the rows not yet uploaded, each once, strictly ordered by the sort key. */
  predicate IsSelection(t: Table, s: seq<ImageRow>, failedLast: bool) {
    (forall k :: 0 <= k < |s| ==>
      s[k].id in t.rows && t.rows[s[k].id].status != Uploaded && s[k] == ImageRowOf(s[k].id, t.rows[s[k].id]))
    && (forall id :: id in t.rows && t.rows[id].status != Uploaded ==> Lists(s, id))
    && (forall i, j :: 0 <= i < j < |s| ==> OrderedBefore(t, s[i], s[j], failedLast))
  }

  /** A scan holds exactly the kept rows below `n`, in strictly ascending id order. */
  lemma ScanExact(t: Table, f: Filter, n: nat)
    ensures forall k :: 0 <= k < |Scan(t, f, n)| ==> var r := Scan(t, f, n)[k];
      r.id < n && r.id in t.rows && Keeps(f, t.rows[r.id]) && r == ImageRowOf(r.id, t.rows[r.id])
    ensures forall id :: id < n && id in t.rows && Keeps(f, t.rows[id]) ==>
      Lists(Scan(t, f, n), id)
    ensures forall i, j :: 0 <= i < j < |Scan(t, f, n)| ==> Scan(t, f, n)[i].id < Scan(t, f, n)[j].id
  {
    ScanRows(t, f, n);
    ScanComplete(t, f, n);
    ScanAscending(t, f, n);
  }

  lemma {:induction false} ScanRows(t: Table, f: Filter, n: nat)
    ensures forall k :: 0 <= k < |Scan(t, f, n)| ==> var r := Scan(t, f, n)[k];
      r.id < n && r.id in t.rows && Keeps(f, t.rows[r.id]) && r == ImageRowOf(r.id, t.rows[r.id])
  {
    if n > 0 {
      ScanRows(t, f, n - 1);
    }
  }

  lemma {:induction false} ScanComplete(t: Table, f: Filter, n: nat)
    ensures forall id :: id < n && id in t.rows && Keeps(f, t.rows[id]) ==>
      Lists(Scan(t, f, n), id)
  {
    if n > 0 {
      ScanComplete(t, f, n - 1);
      var s := Scan(t, f, n - 1);
      var kept := n - 1 in t.rows && Keeps(f, t.rows[n - 1]);
      assert Scan(t, f, n) == if kept then s + [ImageRowOf(n - 1, t.rows[n - 1])] else s;
      forall id | id < n && id in t.rows && Keeps(f, t.rows[id])
        ensures Lists(Scan(t, f, n), id)
      {
        if id == n - 1 {
          assert Scan(t, f, n)[|s|].id == id;
        } else {
          var k :| 0 <= k < |s| && s[k].id == id;
          assert Scan(t, f, n)[k].id == id;
        }
      }
      assert forall id :: id < n && id in t.rows && Keeps(f, t.rows[id]) ==>
        Lists(Scan(t, f, n), id);
    }
  }

  lemma {:induction false} ScanAscending(t: Table, f: Filter, n: nat)
    ensures forall i, j :: 0 <= i < j < |Scan(t, f, n)| ==> Scan(t, f, n)[i].id < Scan(t, f, n)[j].id
  {
    if n > 0 {
      ScanAscending(t, f, n - 1);
      ScanRows(t, f, n - 1);
    }
  }

  /** The synchronizer's selection is what the query promises: every row not yet
      uploaded, once, non-failed rows first, each group by ascending id. */
  lemma SelectUnsynchronizedIsSelection(t: Table)
    requires ValidTable(t)
    ensures IsSelection(t, SelectUnsynchronized(t), true)
  {
    var a := Scan(t, UnsynchronizedNotFailed, t.nextId);
    var b := Scan(t, UnsynchronizedFailed, t.nextId);
    ScanExact(t, UnsynchronizedNotFailed, t.nextId);
    ScanExact(t, UnsynchronizedFailed, t.nextId);
    SelectionComplete(t, a, b);
    SelectionOrdered(t, a, b);
  }

  lemma SelectionComplete(t: Table, a: seq<ImageRow>, b: seq<ImageRow>)
    requires ValidTable(t)
    requires forall id :: id < t.nextId && id in t.rows && Keeps(UnsynchronizedNotFailed, t.rows[id]) ==>
      Lists(a, id)
    requires forall id :: id < t.nextId && id in t.rows && Keeps(UnsynchronizedFailed, t.rows[id]) ==>
      Lists(b, id)
    ensures forall id :: id in t.rows && t.rows[id].status != Uploaded ==>
      Lists(a + b, id)
  {
    forall id | id in t.rows && t.rows[id].status != Uploaded
      ensures Lists(a + b, id)
    {
      if t.rows[id].status == Failed {
        assert Keeps(UnsynchronizedFailed, t.rows[id]);
        var k :| 0 <= k < |b| && b[k].id == id;
        assert (a + b)[|a| + k].id == id;
      } else {
        assert Keeps(UnsynchronizedNotFailed, t.rows[id]);
        var k :| 0 <= k < |a| && a[k].id == id;
        assert (a + b)[k].id == id;
      }
    }
  }

  lemma SelectionOrdered(t: Table, a: seq<ImageRow>, b: seq<ImageRow>)
    requires forall k :: 0 <= k < |a| ==> a[k].id in t.rows && Keeps(UnsynchronizedNotFailed, t.rows[a[k].id])
    requires forall k :: 0 <= k < |b| ==> b[k].id in t.rows && Keeps(UnsynchronizedFailed, t.rows[b[k].id])
    requires forall i, j :: 0 <= i < j < |a| ==> a[i].id < a[j].id
    requires forall i, j :: 0 <= i < j < |b| ==> b[i].id < b[j].id
    ensures forall i, j :: 0 <= i < j < |a + b| ==>
      (a + b)[i].id in t.rows && (a + b)[j].id in t.rows && OrderedBefore(t, (a + b)[i], (a + b)[j], true)
  {
    var s := a + b;
    forall i, j | 0 <= i < j < |s|
      ensures s[i].id in t.rows && s[j].id in t.rows && OrderedBefore(t, s[i], s[j], true)
    {
      if j < |a| {
        assert s[i] == a[i] && s[j] == a[j];
      } else if i >= |a| {
        assert s[i] == b[i - |a|] && s[j] == b[j - |a|];
      } else {
        assert s[i] == a[i] && s[j] == b[j - |a|];
      }
    }
  }

  /** The legacy selection: every row not yet uploaded, once, by ascending id. */
  lemma SelectUnsynchronizedByIdIsSelection(t: Table)
    requires ValidTable(t)
    ensures IsSelection(t, SelectUnsynchronizedById(t), false)
  {
    ScanExact(t, Unsynchronized, t.nextId);
  }

  // ---------------------------------------------------------------- the open catalog

  /** An open catalog (the `better-sqlite3` handle `initDb` returns), with the table's
      rows and the AUTOINCREMENT counter as fields the statements update in place. */
  class Catalog {
    var rows: map<nat, Row>
    var nextId: nat

    function Contents(): Table
      reads this
    {
      Table(rows, nextId)
    }

    ghost predicate Valid()
      reads this
    {
      ValidTable(Contents())
    }

    /** `initDb(dbPath)`: opens the file, creating it when absent. Every CREATE is
        IF NOT EXISTS, so an existing catalog is opened with its contents unchanged. */
    constructor Open(stored: Option<Table>)
      requires stored.Some? ==> ValidTable(stored.value)
      ensures Valid()
      ensures Contents() == stored.GetOr(EMPTY)
    {
      var t := stored.GetOr(EMPTY);
      rows := t.rows;
      nextId := t.nextId;
    }

    /** `INSERT OR IGNORE INTO images(...)`; returns `changes` (1 if inserted, else 0). */
    method InsertOrIgnore(row: Row) returns (changes: nat)
      requires Valid()
      modifies this
      ensures Valid()
      ensures (Contents(), changes > 0) == AfterInsertOrIgnore(old(Contents()), row)
      ensures changes <= 1
    {
      if HasIdentity(rows, row.hash, row.size) {
        nextId := nextId + 1;
        changes := 0;
      } else {
        AddKeepsValid(Contents(), row);
        rows := rows[nextId := row];
        nextId := nextId + 1;
        changes := 1;
      }
    }

    /** `updateSuccessStmt.run(statusCode, now, now, id)`. */
    method UpdateSuccess(id: nat, statusCode: Option<int>, now: Timestamp)
      requires Valid()
      modifies this
      ensures Valid()
      ensures Contents() == if id in old(rows) then UpdateById(old(Contents()), id, MarkUploaded(old(rows)[id], statusCode, now)) else old(Contents())
    {
      if id in rows {
        rows := rows[id := MarkUploaded(rows[id], statusCode, now)];
      }
    }

    /** `updateFailStmt.run(statusCode, error, now, id)`. */
    method UpdateFail(id: nat, statusCode: Option<int>, error: string, now: Timestamp)
      requires Valid()
      modifies this
      ensures Valid()
      ensures Contents() == if id in old(rows) then UpdateById(old(Contents()), id, MarkFailed(old(rows)[id], statusCode, error, now)) else old(Contents())
    {
      if id in rows {
        rows := rows[id := MarkFailed(rows[id], statusCode, error, now)];
      }
    }

    /** `markUploadedStmt.run(statusCode, now, now, path)`; returns `changes`. */
    method MarkUploadedByPath(path: string, statusCode: Option<int>, now: Timestamp) returns (changes: nat)
      requires Valid()
      modifies this
      ensures Valid()
      ensures (Contents(), changes) == AfterMarkUploadedByPath(old(Contents()), path, statusCode, now)
    {
      var r := AfterMarkUploadedByPath(Contents(), path, statusCode, now);
      rows := r.0.rows;
      changes := r.1;
    }
  }
}
