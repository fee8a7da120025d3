/** `ReportHandler` (backend/internal/handlers/report.go): the request
    checks in front of the report store, and the answers built from it.
    The authenticated user arrives from the middleware as an option; the
    `{id}` path segment and the query values arrive as text. */
module ReportHandlers {
  import opened Wrappers
  import opened Strings
  import opened AppErrors
  import opened Responses
  import opened ReportStore
  import Sql
  import UserStore
  import Normalizer
  import AiService
  import Upload

  /** The report database as the handlers see it: the table, and whether
      the database answers at all. */
  datatype Db = Db(reports: Store, reachable: bool)

  /** `types.Report`: a report as sent to the client. */
  datatype ReportView = ReportView(
    id: int,
    userId: int,
    originalFilename: string,
    filePath: string,
    fileType: string,
    simplifiedSummary: string,
    uploadDate: nat,
    processedAt: Option<nat>)

  datatype ReportBody =
    | Uploaded(message: string, success: bool, reportId: int)
    | ReportList(reports: seq<ReportView>, total: int)
    | Single(report: ReportView)
    | Deleted(message: string, success: bool)
    | SummaryOf(report: ReportView, summary: string)
    | Metrics(reportId: int, metrics: seq<Normalizer.HealthMetric>, status: string)

  /** The parsed multipart form: unreadable, without a `file` field, or the
      file's header. */
  datatype Form = BadForm | NoFile | File(filename: string, size: int, contentType: string)

  /** Whether creating the upload directory and writing the file succeed. */
  datatype Disk = Disk(mkdirOk: bool, saveOk: bool)

  const AuthenticationRequired := "Authentication required"
  const InvalidReportId := "Invalid report ID"
  const RetrieveFailed := "Failed to retrieve report"
  const ReportNotFound := "Report not found"
  const AccessDenied := "Access denied"
  const NotReady := "Report is not ready yet"
  const AiUnavailable := "AI service not available"
  const DefaultLimit := 20
  const MaxLimit := 100

  function ToView(r: Report): (v: ReportView)
    ensures v.id == r.id && v.userId == r.userId && v.filePath == r.filePath
    ensures v.simplifiedSummary == r.simplifiedSummary && v.processedAt == r.processedAt
  {
    ReportView(r.id, r.userId, r.originalFilename, r.filePath, r.fileType,
               r.simplifiedSummary, r.uploadDate, r.processedAt)
  }

  // ---------------------------------------------------------------------------
  // Pagination
  // ---------------------------------------------------------------------------

  /** `parsePaginationParams`: a limit in [1, 100] and a non-negative offset
      are taken as given; anything else, absent or unparsable, leaves the
      defaults 20 and 0. */
  function ParsePaginationParams(limitText: Option<string>, offsetText: Option<string>): (r: (int, int))
    ensures 1 <= r.0 <= MaxLimit && r.1 >= 0
    ensures r.0 != DefaultLimit ==> limitText.Some? && Atoi(limitText.value) == Some(r.0)
    ensures r.1 != 0 ==> offsetText.Some? && Atoi(offsetText.value) == Some(r.1)
    ensures limitText.None? || Atoi(limitText.value).None? ==> r.0 == DefaultLimit
    ensures offsetText.None? || Atoi(offsetText.value).None? ==> r.1 == 0
    ensures limitText.Some? && Atoi(limitText.value).Some? ==>
      r.0 == (if 1 <= Atoi(limitText.value).value <= MaxLimit then Atoi(limitText.value).value else DefaultLimit)
    ensures offsetText.Some? && Atoi(offsetText.value).Some? ==>
      r.1 == (if Atoi(offsetText.value).value >= 0 then Atoi(offsetText.value).value else 0)
  {
    var limit :=
      if limitText.Some? && limitText.value != "" then
        match Atoi(limitText.value)
        case Some(n) => if 0 < n <= MaxLimit then n else DefaultLimit
        case None => DefaultLimit
      else DefaultLimit;
    var offset :=
      if offsetText.Some? && offsetText.value != "" then
        match Atoi(offsetText.value)
        case Some(n) => if n >= 0 then n else 0
        case None => 0
      else 0;
    (limit, offset)
  }

  /** Values a client writes in decimal are read back exactly when they are
      in range. */
  lemma PaginationRoundTrip(limit: int, offset: int)
    requires 1 <= limit <= MaxLimit && 0 <= offset <= MaxInt64
    ensures ParsePaginationParams(Some(Itoa(limit)), Some(Itoa(offset))) == (limit, offset)
  {
    AtoiItoa(limit);
    AtoiItoa(offset);
  }

  /** A limit out of range is not clamped: it falls back to the default. */
  lemma LimitOutOfRangeIsDefault(limit: int, offsetText: Option<string>)
    requires MinInt64 <= limit <= MaxInt64 && (limit < 1 || limit > MaxLimit)
    ensures ParsePaginationParams(Some(Itoa(limit)), offsetText).0 == DefaultLimit
  {
    AtoiItoa(limit);
  }

  // ---------------------------------------------------------------------------
  // The guard ladder
  // ---------------------------------------------------------------------------

  /** Which handler runs the ladder: the summary and metrics handlers add
      the readiness check, the metrics handler the AI check after it. */
  datatype Check = View | Remove | Summarize | Measure

  /** The report lookup as the handlers see it. */
  function Lookup(db: Db, id: int): (r: Result<Option<Report>, string>)
    ensures r.Success? <==> db.reachable
    ensures r.Success? ==> r.value == GetByID(db.reports, id)
  {
    if db.reachable then Success(GetByID(db.reports, id)) else Failure("database unavailable")
  }

  /** The guard ladder after the report id is parsed: the first refusal, as
      status and message, or `None` when the handler may proceed. */
  function Guard(check: Check, lookup: Result<Option<Report>, string>, userId: int, aiAvailable: bool)
    : (r: Option<(int, string)>)
    ensures lookup.Failure? ==> r == Some((StatusInternalServerError, RetrieveFailed))
    ensures lookup == Success(None) ==> r == Some((StatusNotFound, ReportNotFound))
    ensures lookup.Success? && lookup.value.Some? && lookup.value.value.userId != userId
            ==> r == Some((StatusForbidden, AccessDenied))
    ensures r.None? <==>
      lookup.Success? && lookup.value.Some? && lookup.value.value.userId == userId
      && (check in {Summarize, Measure} ==> lookup.value.value.processingStatus == "completed")
      && (check == Measure ==> aiAvailable)
    ensures r.Some? ==> r.value.0 in {400, 403, 404, 500, 503}
  {
    match lookup
    case Failure(_) => Some((StatusInternalServerError, RetrieveFailed))
    case Success(None) => Some((StatusNotFound, ReportNotFound))
    case Success(Some(report)) =>
      if report.userId != userId then Some((StatusForbidden, AccessDenied))
      else if check in {Summarize, Measure} && report.processingStatus != "completed" then
        Some((StatusBadRequest, NotReady))
      else if check == Measure && !aiAvailable then Some((StatusServiceUnavailable, AiUnavailable))
      else None
  }

  /** Someone else's report is refused the same way by every handler, so
      its processing state and the AI configuration cannot be probed. */
  lemma OthersReportsAllLookAlike(c1: Check, c2: Check, report: Report, other: Report,
                                  userId: int, ai1: bool, ai2: bool)
    requires report.userId != userId && other.userId != userId
    ensures Guard(c1, Success(Some(report)), userId, ai1) == Guard(c2, Success(Some(other)), userId, ai2)
  {}

  /** The checks that come before the ladder: method, login, then the id. */
  function Preamble(verb: string, expected: string, user: Option<UserStore.User>, idText: string)
    : (r: Result<(UserStore.User, int), Response<ReportBody>>)
    ensures verb != expected ==> r == Failure(NotAllowed())
    ensures verb == expected && user.None? ==>
      r == Failure(WriteErrorResponse(StatusUnauthorized, AuthenticationRequired))
    ensures r.Failure? ==> WellFormed(r.error)
    ensures r.Success? <==> verb == expected && user.Some? && Atoi(idText).Some?
    ensures r.Success? ==> r.value == (user.value, Atoi(idText).value)
  {
    if verb != expected then Failure(NotAllowed())
    else if user.None? then Failure(WriteErrorResponse(StatusUnauthorized, AuthenticationRequired))
    else match Atoi(idText)
      case None => Failure(WriteErrorResponse(StatusBadRequest, InvalidReportId))
      case Some(id) => Success((user.value, id))
  }

  /** A refusal of the ladder as a response. */
  function Refuse(refusal: (int, string)): (r: Response<ReportBody>)
    ensures WellFormed(r) && r.status == refusal.0
  {
    WriteErrorResponse(refusal.0, refusal.1)
  }

  // ---------------------------------------------------------------------------
  // Handlers
  // ---------------------------------------------------------------------------

  /** `GetReportHandler`. */
  function GetReport(db: Db, verb: string, user: Option<UserStore.User>, idText: string): (r: Response<ReportBody>)
    ensures WellFormed(r)
    ensures r.JsonResponse? <==>
      (Preamble(verb, "GET", user, idText).Success?
       && var (u, id) := Preamble(verb, "GET", user, idText).value;
          Guard(View, Lookup(db, id), u.id, false).None?)
    ensures r.JsonResponse? ==> (
      r.status == 200 && user.Some? && Atoi(idText).Some?
      && var id := Atoi(idText).value;
         id in db.reports.rows && db.reports.rows[id].userId == user.value.id
         && r.data == Single(ToView(db.reports.rows[id])))
  {
    match Preamble(verb, "GET", user, idText)
    case Failure(resp) => resp
    case Success((u, id)) =>
      match Guard(View, Lookup(db, id), u.id, false)
      case Some(refusal) => Refuse(refusal)
      case None => JsonResponse(200, Single(ToView(db.reports.rows[id])))
  }

  /** `DeleteReportHandler`: removes the row of an owned report. */
  function DeleteReport(db: Db, verb: string, user: Option<UserStore.User>, idText: string)
    : (res: (Response<ReportBody>, Store))
    ensures WellFormed(res.0)
    ensures res.0.ErrorResponse? ==> res.1 == db.reports
    ensures Preamble(verb, "DELETE", user, idText).Failure? ==> res.0 == Preamble(verb, "DELETE", user, idText).error
    ensures Preamble(verb, "DELETE", user, idText).Success? ==>
      var (u, id) := Preamble(verb, "DELETE", user, idText).value;
      var refusal := Guard(Remove, Lookup(db, id), u.id, false);
      (refusal.Some? ==> res.0 == Refuse(refusal.value))
      && (refusal.None? ==> res.0 == JsonResponse(200, Deleted("Report deleted successfully", true)))
    ensures res.0.JsonResponse? ==> (
      res.0.status == 200 && verb == "DELETE" && user.Some? && Atoi(idText).Some?
      && var id := Atoi(idText).value;
         id in db.reports.rows && db.reports.rows[id].userId == user.value.id
         && res.1 == Delete(db.reports, id).value)
  {
    match Preamble(verb, "DELETE", user, idText)
    case Failure(resp) => (resp, db.reports)
    case Success((u, id)) =>
      match Guard(Remove, Lookup(db, id), u.id, false)
      case Some(refusal) => (Refuse(refusal), db.reports)
      case None =>
        match Delete(db.reports, id)
        case Failure(_) => (WriteErrorResponse(StatusInternalServerError, "Failed to delete report"), db.reports)
        case Success(s') => (JsonResponse(200, Deleted("Report deleted successfully", true)), s')
  }

  /** Once its owner deletes a report, reading it again answers 404. */
  lemma DeleteThenNotFound(db: Db, user: Option<UserStore.User>, idText: string)
    requires db.reachable
    requires DeleteReport(db, "DELETE", user, idText).0.JsonResponse?
    ensures var r := GetReport(db.(reports := DeleteReport(db, "DELETE", user, idText).1), "GET", user, idText);
      r.ErrorResponse? && r.status == StatusNotFound && r.body.message == ReportNotFound
  {}

  /** No user can delete a report that belongs to someone else. */
  lemma DeleteKeepsOthersReports(db: Db, verb: string, user: Option<UserStore.User>, idText: string, id: int)
    requires id in db.reports.rows && (user.None? || db.reports.rows[id].userId != user.value.id)
    ensures var s' := DeleteReport(db, verb, user, idText).1;
      id in s'.rows && s'.rows[id] == db.reports.rows[id]
  {}

  /** `GetReportSummaryHandler`: the stored summary of a completed report. */
  function GetReportSummary(db: Db, verb: string, user: Option<UserStore.User>, idText: string)
    : (r: Response<ReportBody>)
    ensures WellFormed(r)
    ensures Preamble(verb, "GET", user, idText).Failure? ==> r == Preamble(verb, "GET", user, idText).error
    ensures Preamble(verb, "GET", user, idText).Success? ==>
      var (u, id) := Preamble(verb, "GET", user, idText).value;
      var refusal := Guard(Summarize, Lookup(db, id), u.id, false);
      (refusal.Some? ==> r == Refuse(refusal.value)) && (refusal.None? <==> r.JsonResponse?)
    ensures r.JsonResponse? ==> (
      r.status == 200 && user.Some? && Atoi(idText).Some?
      && var id := Atoi(idText).value;
         id in db.reports.rows && db.reports.rows[id].userId == user.value.id
         && db.reports.rows[id].processingStatus == "completed"
         && r.data == SummaryOf(ToView(db.reports.rows[id]), db.reports.rows[id].simplifiedSummary))
  {
    match Preamble(verb, "GET", user, idText)
    case Failure(resp) => resp
    case Success((u, id)) =>
      match Guard(Summarize, Lookup(db, id), u.id, false)
      case Some(refusal) => Refuse(refusal)
      case None =>
        var report := db.reports.rows[id];
        JsonResponse(200, SummaryOf(ToView(report), report.simplifiedSummary))
  }

  /** `GetHealthMetricsHandler`: the metrics decoded from the stored
      analysis of a completed report; `ai` is `None` when no API key was
      configured. */
  function GetHealthMetrics(db: Db, ai: Option<AiService.Ai>, verb: string, user: Option<UserStore.User>, idText: string)
    : (r: Response<ReportBody>)
    ensures WellFormed(r)
    ensures Preamble(verb, "GET", user, idText).Failure? ==> r == Preamble(verb, "GET", user, idText).error
    ensures Preamble(verb, "GET", user, idText).Success? ==>
      var (u, id) := Preamble(verb, "GET", user, idText).value;
      var refusal := Guard(Measure, Lookup(db, id), u.id, ai.Some?);
      (refusal.Some? ==> r == Refuse(refusal.value))
      && (refusal.None? ==>
            (r.JsonResponse? <==> ai.value.decode(db.reports.rows[id].simplifiedSummary).Some?)
            && (r.ErrorResponse? ==> r == WriteErrorResponse(StatusInternalServerError, "Failed to extract health metrics")))
    ensures r.JsonResponse? ==> (
      r.status == 200 && ai.Some? && user.Some? && Atoi(idText).Some?
      && var id := Atoi(idText).value;
         id in db.reports.rows && db.reports.rows[id].userId == user.value.id
         && db.reports.rows[id].processingStatus == "completed"
         && ai.value.decode(db.reports.rows[id].simplifiedSummary).Some?
         && r.data == Metrics(db.reports.rows[id].id,
                              ai.value.decode(db.reports.rows[id].simplifiedSummary).value.healthMetrics, "completed"))
  {
    match Preamble(verb, "GET", user, idText)
    case Failure(resp) => resp
    case Success((u, id)) =>
      match Guard(Measure, Lookup(db, id), u.id, ai.Some?)
      case Some(refusal) => Refuse(refusal)
      case None =>
        var report := db.reports.rows[id];
        match Normalizer.GetHealthMetrics(ai.value.decode, report.simplifiedSummary)
        case Failure(_) => WriteErrorResponse(StatusInternalServerError, "Failed to extract health metrics")
        case Success(metrics) => JsonResponse(200, Metrics(report.id, metrics, "completed"))
  }

  /** `GetReportsHandler`: one page of the user's reports, newest first,
      with `total` counting the reports on the page. */
  function GetReports(db: Db, verb: string, user: Option<UserStore.User>, limitText: Option<string>, offsetText: Option<string>)
    : (r: Response<ReportBody>)
    ensures WellFormed(r)
    ensures r.JsonResponse? <==> verb == "GET" && user.Some? && db.reachable
    ensures r.JsonResponse? ==> (
      r.status == 200 && r.data.ReportList?
      && r.data.total == |r.data.reports| <= MaxLimit
      && (forall i :: 0 <= i < |r.data.reports| ==> r.data.reports[i].userId == user.value.id)
      && (forall i, j :: 0 <= i < j < |r.data.reports| ==> r.data.reports[i].uploadDate >= r.data.reports[j].uploadDate))
    ensures r.JsonResponse? && Valid(db.reports) ==>
      forall i :: 0 <= i < |r.data.reports| ==>
        var v := r.data.reports[i]; v.id in db.reports.rows && v == ToView(db.reports.rows[v.id])
    ensures r.JsonResponse? ==>
      var (limit, offset) := ParsePaginationParams(limitText, offsetText);
      var rows := GetByUserID(db.reports, user.value.id, limit, offset);
      |r.data.reports| == |rows| && forall i :: 0 <= i < |rows| ==> r.data.reports[i] == ToView(rows[i])
  {
    if verb != "GET" then NotAllowed()
    else if user.None? then WriteErrorResponse(StatusUnauthorized, AuthenticationRequired)
    else
      var (limit, offset) := ParsePaginationParams(limitText, offsetText);
      if !db.reachable then WriteErrorResponse(StatusInternalServerError, "Failed to retrieve reports")
      else
        var views := Listing(db.reports, user.value.id, limit, offset);
        JsonResponse(200, ReportList(views, |views|))
  }

  /** The page `GetByUserID` returns, as views. */
  function Listing(s: Store, userId: int, limit: int, offset: int): (vs: seq<ReportView>)
    ensures limit >= 0 ==> |vs| <= limit
    ensures forall i :: 0 <= i < |vs| ==> vs[i].userId == userId
    ensures forall i, j :: 0 <= i < j < |vs| ==> vs[i].uploadDate >= vs[j].uploadDate
    ensures Valid(s) ==> forall i :: 0 <= i < |vs| ==> vs[i].id in s.rows && vs[i] == ToView(s.rows[vs[i].id])
    ensures var rows := Sql.Page(Sql.SortBy(Sql.Select(s.rows, 1, s.nextId, OwnedBy(userId)), NewestFirst), limit, offset);
      |vs| == |rows| && forall i :: 0 <= i < |rows| ==> vs[i] == ToView(rows[i])
  {
    var rows := GetByUserID(s, userId, limit, offset);
    ListedRowsStored(s, rows);
    Views(rows)
  }

  /** The rows as sent to the client, one view per row, in order. */
  function Views(rows: seq<Report>): (vs: seq<ReportView>)
    ensures |vs| == |rows| && forall i :: 0 <= i < |rows| ==> vs[i] == ToView(rows[i])
  {
    seq(|rows|, i requires 0 <= i < |rows| => ToView(rows[i]))
  }

  /** Consecutive pages of the listing join up with nothing skipped or
      repeated. */
  lemma ListingPagesTile(s: Store, userId: int, a: nat, b: nat, offset: nat)
    ensures Listing(s, userId, a, offset) + Listing(s, userId, b, offset + a) == Listing(s, userId, a + b, offset)
  {
    GetByUserIDPages(s, userId, -1, 0, a, b, offset);
    ViewsAppend(GetByUserID(s, userId, a, offset), GetByUserID(s, userId, b, offset + a));
  }

  lemma ViewsAppend(xs: seq<Report>, ys: seq<Report>)
    ensures Views(xs + ys) == Views(xs) + Views(ys)
  {
    var l, r := Views(xs + ys), Views(xs) + Views(ys);
    assert |l| == |r|;
    forall i | 0 <= i < |l| ensures l[i] == r[i] {
      if i >= |xs| {
        assert (xs + ys)[i] == ys[i - |xs|];
      }
    }
  }

  lemma ListedRowsStored(s: Store, rows: seq<Report>)
    requires Valid(s) ==> forall x :: x in rows ==> x.id in s.rows && s.rows[x.id] == x
    ensures Valid(s) ==> forall i :: 0 <= i < |rows| ==> rows[i].id in s.rows && s.rows[rows[i].id] == rows[i]
  {
    if Valid(s) {
      forall i | 0 <= i < |rows| ensures rows[i].id in s.rows && s.rows[rows[i].id] == rows[i] {
        assert rows[i] in rows;
      }
    }
  }

  /** `UploadReportHandler`: validates the file, stores it under a fresh
      name and records a pending report, which is then handed to the
      pipeline.  On every refusal the store is unchanged and nothing is
      queued. */
  function UploadReport(db: Db, verb: string, user: Option<UserStore.User>, form: Form, disk: Disk,
                        uploadDir: string, maxFileSize: int, timestamp: int, now: nat)
    : (res: (Response<ReportBody>, Store, Option<Report>))
    requires Valid(db.reports)
    ensures WellFormed(res.0)
    ensures res.0.ErrorResponse? ==> res.1 == db.reports && res.2.None?
    ensures verb != "POST" ==> res.0 == NotAllowed()
    ensures verb == "POST" && user.None? ==> res.0 == WriteErrorResponse(StatusUnauthorized, AuthenticationRequired)
    ensures verb == "POST" && user.Some? && form.File?
            && Upload.FileProblem(form.size, form.filename, form.contentType, maxFileSize).Some? ==>
      res.0 == HandleServiceError(App(Upload.FileProblem(form.size, form.filename, form.contentType, maxFileSize).value))
    ensures res.0.JsonResponse? <==>
      verb == "POST" && user.Some? && form.File?
      && Upload.FileProblem(form.size, form.filename, form.contentType, maxFileSize).None?
      && disk.mkdirOk && disk.saveOk && db.reachable
    ensures res.0.JsonResponse? ==> (
      verb == "POST" && user.Some? && form.File? && res.2.Some?
      && Upload.FileProblem(form.size, form.filename, form.contentType, maxFileSize).None?
      && var row := res.2.value;
         res.1 == Create(db.reports, row, now).0 && Valid(res.1)
         && row.id !in db.reports.rows && res.1.rows == db.reports.rows[row.id := row]
         && row.userId == user.value.id && row.processingStatus == "pending"
         && row.originalFilename == form.filename && row.fileType == form.contentType
         && row.fileSize == form.size
         && row.filePath == Upload.SavedPath(uploadDir, form.filename, timestamp)
         && res.0 == JsonResponse(201, Uploaded("File uploaded successfully and queued for processing", true, row.id)))
  {
    if verb != "POST" then (NotAllowed(), db.reports, None)
    else if user.None? then (WriteErrorResponse(StatusUnauthorized, AuthenticationRequired), db.reports, None)
    else match form
      case BadForm => (WriteErrorResponse(StatusBadRequest, "File too large or invalid form data"), db.reports, None)
      case NoFile => (WriteErrorResponse(StatusBadRequest, "No file provided or invalid file field"), db.reports, None)
      case File(filename, size, contentType) =>
        match Upload.FileProblem(size, filename, contentType, maxFileSize)
        case Some(e) => (HandleServiceError(App(e)), db.reports, None)
        case None =>
          if !disk.mkdirOk then
            (WriteErrorResponse(StatusInternalServerError, "Failed to create upload directory"), db.reports, None)
          else if !disk.saveOk then
            (WriteErrorResponse(StatusInternalServerError, "Failed to save file"), db.reports, None)
          else if !db.reachable then
            (WriteErrorResponse(StatusInternalServerError, "Failed to save report metadata"), db.reports, None)
          else
            var draft := Report(0, user.value.id, filename, Upload.SavedPath(uploadDir, filename, timestamp),
                                contentType, size, "", "pending", now, None, now, now);
            var (s', row) := Create(db.reports, draft, now);
            assert Create(db.reports, row, now).0 == s';
            (JsonResponse(201, Uploaded("File uploaded successfully and queued for processing", true, row.id)), s', Some(row))
  }

  /** Every report the upload handler queues can be read by the extractor:
      its extension is one the pipeline handles. */
  lemma QueuedReportIsExtractable(db: Db, verb: string, user: Option<UserStore.User>, form: Form, disk: Disk,
                                  uploadDir: string, maxFileSize: int, timestamp: int, now: nat)
    requires Valid(db.reports)
    requires UploadReport(db, verb, user, form, disk, uploadDir, maxFileSize, timestamp, now).2.Some?
    ensures var row := UploadReport(db, verb, user, form, disk, uploadDir, maxFileSize, timestamp, now).2.value;
      !AiService.ExtractorFor(row.filePath).Unsupported?
  {
    Upload.AcceptedUploadIsExtractable(uploadDir, form.filename, timestamp);
  }
}
