/** The `reports` table and `SQLReportRepository` (backend/internal/models/report.go)
    as a map from id to row.  Ids come from AUTOINCREMENT: `nextId` only
    grows, so an id is never handed out twice.  Timestamps are naturals
    supplied by the caller as `now`. */
module ReportStore {
  import opened Wrappers
  import opened Sql

  datatype Report = Report(
    id: int,
    userId: int,
    originalFilename: string,
    filePath: string,
    fileType: string,
    fileSize: int,
    simplifiedSummary: string,
    processingStatus: string,
    uploadDate: nat,
    processedAt: Option<nat>,
    createdAt: nat,
    updatedAt: nat)

  datatype Store = Store(rows: map<int, Report>, nextId: int)

  const Empty := Store(map[], 1)

  /** Every row sits under its own id, and every id is below `nextId`. */
  predicate Valid(s: Store) {
    s.nextId >= 1 && forall id :: id in s.rows ==> 1 <= id < s.nextId && s.rows[id].id == id
  }

  /** `Create`: the row gets the next id, status "pending" whatever the
      caller set, no summary and no processing time yet, and `now` as its
      upload, creation and update time.  The stored row is returned. */
  function Create(s: Store, report: Report, now: nat): (res: (Store, Report))
    requires Valid(s)
    ensures var (s', row) := res;
      Valid(s') && row.id !in s.rows && s'.rows == s.rows[row.id := row]
    ensures var row := res.1;
      row.processingStatus == "pending" && row.processedAt == None && row.uploadDate == now
      && row.userId == report.userId && row.originalFilename == report.originalFilename
      && row.filePath == report.filePath && row.fileType == report.fileType && row.fileSize == report.fileSize
  {
    var row := report.(id := s.nextId, simplifiedSummary := "", processingStatus := "pending",
                       uploadDate := now, processedAt := None, createdAt := now, updatedAt := now);
    (Store(s.rows[row.id := row], s.nextId + 1), row)
  }

  /** `GetByID`: the row, or `None` (Go's `nil, nil`) for an unknown id. */
  function GetByID(s: Store, id: int): (r: Option<Report>)
    ensures r.Some? <==> id in s.rows
    ensures r.Some? ==> r.value == s.rows[id]
  {
    if id in s.rows then Some(s.rows[id]) else None
  }

  /** The WHERE and ORDER BY clauses of the listings. */
  function OwnedBy(userId: int): Report -> bool {
    (x: Report) => x.userId == userId
  }

  predicate IsPending(x: Report) {
    x.processingStatus == "pending"
  }

  function NewestFirst(x: Report): int {
    -(x.uploadDate as int)
  }

  function OldestFirst(x: Report): int {
    x.uploadDate
  }

  /** `GetByUserID`: the user's reports, newest upload first, after skipping
      `offset` of them, at most `limit`. */
  function GetByUserID(s: Store, userId: int, limit: int, offset: int): (r: seq<Report>)
    ensures forall x :: x in r ==> x.userId == userId && x in s.rows.Values
    ensures forall i, j :: 0 <= i < j < |r| ==> r[i].uploadDate >= r[j].uploadDate
    ensures limit >= 0 ==> |r| <= limit
    ensures Valid(s) ==> forall x :: x in r ==> x.id in s.rows && s.rows[x.id] == x
    ensures r == Page(SortBy(Select(s.rows, 1, s.nextId, OwnedBy(userId)), NewestFirst), limit, offset)
  {
    var r := Query(s.rows, s.nextId, OwnedBy(userId), NewestFirst, limit, offset);
    assert Sorted(r, NewestFirst);
    StoredAtOwnIds(s, r);
    r
  }

  /** Rows taken from a valid table sit under their own ids. */
  lemma StoredAtOwnIds(s: Store, r: seq<Report>)
    requires forall x :: x in r ==> exists id :: 1 <= id < s.nextId && id in s.rows && s.rows[id] == x
    ensures Valid(s) ==> forall x :: x in r ==> x.id in s.rows && s.rows[x.id] == x
  {
    if Valid(s) {
      forall x | x in r ensures x.id in s.rows && s.rows[x.id] == x {
        var id :| 1 <= id < s.nextId && id in s.rows && s.rows[id] == x;
        assert s.rows[id].id == id;
      }
    }
  }

  /** Asked for everything, `GetByUserID` returns every report of the user. */
  lemma GetByUserIDComplete(s: Store, userId: int, id: int)
    requires Valid(s) && id in s.rows && s.rows[id].userId == userId
    ensures s.rows[id] in GetByUserID(s, userId, -1, 0)
  {
    QueryComplete(s.rows, s.nextId, OwnedBy(userId), NewestFirst, id);
  }

  /** Every page of `GetByUserID` is a window of the full listing, and
      consecutive pages join up with nothing skipped or repeated. */
  lemma GetByUserIDPages(s: Store, userId: int, limit: int, offset: int, a: nat, b: nat, start: nat)
    ensures GetByUserID(s, userId, limit, offset) == Page(GetByUserID(s, userId, -1, 0), limit, offset)
    ensures GetByUserID(s, userId, a, start) + GetByUserID(s, userId, b, start + a) == GetByUserID(s, userId, a + b, start)
  {
    QueryWindow(s.rows, s.nextId, OwnedBy(userId), NewestFirst, limit, offset);
    QueryPagesTile(s.rows, s.nextId, OwnedBy(userId), NewestFirst, a, b, start);
  }

  /** `Update`: rewrites the caller-editable columns of the row with the
      report's id and stamps `updated_at`; the owner, the stored path and
      the upload date are never touched.  Nothing matches an unknown id. */
  function Update(s: Store, report: Report, now: nat): (r: Result<Store, DbError>)
    ensures report.id !in s.rows <==> r == Failure(ErrNoRows)
    ensures r.Success? ==> report.id in r.value.rows
    ensures r.Success? ==>
      var before := s.rows[report.id];
      var after := r.value.rows[report.id];
      r.value.nextId == s.nextId && r.value.rows.Keys == s.rows.Keys
      && (forall id :: id in s.rows && id != report.id ==> r.value.rows[id] == s.rows[id])
      && after.id == before.id && after.userId == before.userId && after.filePath == before.filePath
      && after.uploadDate == before.uploadDate && after.createdAt == before.createdAt
      && after.originalFilename == report.originalFilename && after.fileType == report.fileType
      && after.fileSize == report.fileSize && after.simplifiedSummary == report.simplifiedSummary
      && after.processingStatus == report.processingStatus && after.processedAt == report.processedAt
      && after.updatedAt == now
    ensures r.Success? && Valid(s) ==> Valid(r.value)
  {
    if report.id !in s.rows then Failure(ErrNoRows)
    else
      var before := s.rows[report.id];
      var after := before.(originalFilename := report.originalFilename, fileType := report.fileType,
                           fileSize := report.fileSize, simplifiedSummary := report.simplifiedSummary,
                           processingStatus := report.processingStatus, processedAt := report.processedAt,
                           updatedAt := now);
      Success(s.(rows := s.rows[report.id := after]))
  }

  /** `UpdateProcessingStatus`: sets status and summary of an existing row;
      `processed_at` becomes `now` exactly when the new status is
      "completed" and is kept otherwise.  Any status may follow any other. */
  function UpdateProcessingStatus(s: Store, id: int, status: string, summary: string, now: nat): (r: Result<Store, DbError>)
    ensures id !in s.rows <==> r == Failure(ErrNoRows)
    ensures r.Success? ==> id in r.value.rows
    ensures r.Success? ==>
      var before := s.rows[id];
      var after := r.value.rows[id];
      r.value.nextId == s.nextId && r.value.rows.Keys == s.rows.Keys
      && (forall k :: k in s.rows && k != id ==> r.value.rows[k] == s.rows[k])
      && after.processingStatus == status && after.simplifiedSummary == summary
      && after.processedAt == (if status == "completed" then Some(now) else before.processedAt)
      && after.updatedAt == now
      && after == before.(processingStatus := status, simplifiedSummary := summary,
                          processedAt := after.processedAt, updatedAt := now)
    ensures r.Success? && Valid(s) ==> Valid(r.value)
  {
    if id !in s.rows then Failure(ErrNoRows)
    else
      var before := s.rows[id];
      var after := before.(processingStatus := status, simplifiedSummary := summary,
                           processedAt := if status == "completed" then Some(now) else before.processedAt,
                           updatedAt := now);
      Success(s.(rows := s.rows[id := after]))
  }

  /** No order of statuses is enforced: a completed report can be put back
      to "pending", and it keeps the time it was completed. */
  lemma CompletedReportCanBeReset(s: Store, id: int, t1: nat, t2: nat, summary: string)
    requires id in s.rows
    ensures var done := UpdateProcessingStatus(s, id, "completed", summary, t1);
      done.Success?
      && var again := UpdateProcessingStatus(done.value, id, "pending", "", t2);
         again.Success? && again.value.rows[id].processingStatus == "pending"
         && again.value.rows[id].processedAt == Some(t1)
  {}

  /** `Delete`: removes exactly the one row; an unknown id is `ErrNoRows`. */
  function Delete(s: Store, id: int): (r: Result<Store, DbError>)
    ensures id !in s.rows <==> r == Failure(ErrNoRows)
    ensures r.Success? ==>
      r.value.rows.Keys == s.rows.Keys - {id} && r.value.nextId == s.nextId
      && forall k :: k in r.value.rows ==> r.value.rows[k] == s.rows[k]
    ensures r.Success? && Valid(s) ==> Valid(r.value)
  {
    if id !in s.rows then Failure(ErrNoRows) else Success(s.(rows := s.rows - {id}))
  }

  /** A deleted report is gone, and its id is not given to the next report. */
  lemma DeleteThenCreate(s: Store, id: int, report: Report, now: nat)
    requires Valid(s) && id in s.rows
    ensures var d := Delete(s, id).value;
      GetByID(d, id) == None && Create(d, report, now).1.id != id
  {}

  /** `GetPendingReports`: pending reports only, oldest upload first, at
      most `limit`. */
  function GetPendingReports(s: Store, limit: int): (r: seq<Report>)
    ensures forall x :: x in r ==> x.processingStatus == "pending" && x in s.rows.Values
    ensures forall i, j :: 0 <= i < j < |r| ==> r[i].uploadDate <= r[j].uploadDate
    ensures limit >= 0 ==> |r| <= limit
    ensures r == Page(SortBy(Select(s.rows, 1, s.nextId, IsPending), OldestFirst), limit, 0)
  {
    var r := Query(s.rows, s.nextId, IsPending, OldestFirst, limit, 0);
    assert Sorted(r, OldestFirst);
    r
  }

  /** The pending batch is the oldest `limit` pending reports: a prefix of
      the full pending queue, which misses no pending report. */
  lemma PendingBatchIsOldest(s: Store, limit: int, id: int)
    requires 1 <= id < s.nextId && id in s.rows && IsPending(s.rows[id])
    ensures GetPendingReports(s, limit) == Page(GetPendingReports(s, -1), limit, 0)
    ensures s.rows[id] in GetPendingReports(s, -1)
  {
    QueryWindow(s.rows, s.nextId, IsPending, OldestFirst, limit, 0);
    QueryComplete(s.rows, s.nextId, IsPending, OldestFirst, id);
  }
}
