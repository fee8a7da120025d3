/** `processReportAsync` (backend/internal/handlers/report.go): the
    background run that takes a freshly uploaded report through
    "processing" to "completed" or "failed".  The goroutine is modelled as
    the list of status writes it issues, applied to the store in order. */
module Pipeline {
  import opened Wrappers
  import opened Strings
  import opened ReportStore
  import AiService
  import Normalizer
  import UserStore
  import Responses
  import ReportHandlers

  /** A configured AI service: the model and codec, and the files it reads. */
  datatype Service = Service(ai: AiService.Ai, fs: AiService.FileSystem)

  /** One `UpdateProcessingStatus` call. */
  datatype StatusUpdate = StatusUpdate(status: string, summary: string)

  const MissingKey := "AI service not available - missing API key"
  const FailurePrefix := "Processing failed: "

  /** The status writes of one run; `service` is `None` when no API key was
      configured. */
  function ProcessReportAsync(report: Report, service: Option<Service>): (updates: seq<StatusUpdate>)
    ensures |updates| == 2 && updates[0] == StatusUpdate("processing", "")
    ensures updates[1].status == "completed" || updates[1].status == "failed"
    ensures service.None? ==> updates[1] == StatusUpdate("failed", MissingKey)
    ensures service.Some? ==>
      var out := AiService.AnalyzeReport(service.value.ai, service.value.fs, report.filePath, report.fileType);
      (out.Success? ==> updates[1] == StatusUpdate("completed", out.value))
      && (out.Failure? ==> updates[1] == StatusUpdate("failed", FailurePrefix + out.error))
  {
    var start := StatusUpdate("processing", "");
    if service.None? then [start, StatusUpdate("failed", MissingKey)]
    else match AiService.AnalyzeReport(service.value.ai, service.value.fs, report.filePath, report.fileType)
      case Failure(e) => [start, StatusUpdate("failed", FailurePrefix + e)]
      case Success(summary) => [start, StatusUpdate("completed", summary)]
  }

  /** A run ends in "completed" exactly when a service is configured and the
      analysis succeeds; a failed run's summary says why. */
  lemma ProcessOutcome(report: Report, service: Option<Service>)
    ensures var last := ProcessReportAsync(report, service)[1];
      (last.status == "completed" <==>
         service.Some?
         && AiService.AnalyzeReport(service.value.ai, service.value.fs, report.filePath, report.fileType).Success?)
      && (last.status == "failed" ==> HasPrefix(last.summary, FailurePrefix) || last.summary == MissingKey)
  {
    var updates := ProcessReportAsync(report, service);
    if service.Some? {
      var out := AiService.AnalyzeReport(service.value.ai, service.value.fs, report.filePath, report.fileType);
      if out.Failure? {
        assert updates[1].summary == FailurePrefix + out.error;
        assert updates[1].summary[..|FailurePrefix|] == FailurePrefix;
      }
    }
  }

  /** The writes applied in order at time `now`.  The goroutine ignores the
      error of every write, so a write to a missing row is skipped. */
  function ApplyUpdates(s: Store, id: int, updates: seq<StatusUpdate>, now: nat): (r: Store)
    ensures r.rows.Keys == s.rows.Keys && r.nextId == s.nextId
    ensures forall k :: k in s.rows && k != id ==> r.rows[k] == s.rows[k]
    ensures Valid(s) ==> Valid(r)
    ensures id in s.rows && |updates| > 0 ==>
      r.rows[id].processingStatus == updates[|updates| - 1].status
      && r.rows[id].simplifiedSummary == updates[|updates| - 1].summary
    ensures id in s.rows ==>
      r.rows[id].id == s.rows[id].id && r.rows[id].userId == s.rows[id].userId
      && r.rows[id].filePath == s.rows[id].filePath && r.rows[id].uploadDate == s.rows[id].uploadDate
    decreases |updates|
  {
    if |updates| == 0 then s
    else match UpdateProcessingStatus(s, id, updates[0].status, updates[0].summary, now)
      case Failure(_) => ApplyUpdates(s, id, updates[1..], now)
      case Success(s') => ApplyUpdates(s', id, updates[1..], now)
  }

  /** A run on a report that was deleted meanwhile writes nothing. */
  lemma {:induction false} DeletedReportUntouched(s: Store, id: int, updates: seq<StatusUpdate>, now: nat)
    requires id !in s.rows
    ensures ApplyUpdates(s, id, updates, now) == s
    decreases |updates|
  {
    if |updates| > 0 {
      DeletedReportUntouched(s, id, updates[1..], now);
    }
  }

  /** The codec reads back every analysis it writes. */
  ghost predicate CodecRoundTrips(ai: AiService.Ai) {
    forall a :: ai.encode(a).Success? ==> ai.decode(ai.encode(a).value) == Some(a)
  }

  /** After its run, an uploaded report is either "completed", with an
      analysis that decodes to metrics all scored in [0, 100], or "failed". */
  lemma RunSettlesReport(s: Store, report: Report, service: Option<Service>, now: nat)
    requires report.id in s.rows
    requires service.Some? ==> CodecRoundTrips(service.value.ai)
    ensures var row := ApplyUpdates(s, report.id, ProcessReportAsync(report, service), now).rows[report.id];
      (row.processingStatus == "completed" || row.processingStatus == "failed")
      && (row.processingStatus == "completed" ==>
            service.Some? && service.value.ai.decode(row.simplifiedSummary).Some?
            && Normalizer.Enhanced(service.value.ai.decode(row.simplifiedSummary).value))
  {
    var updates := ProcessReportAsync(report, service);
    var row := ApplyUpdates(s, report.id, updates, now).rows[report.id];
    if row.processingStatus == "completed" {
      ProcessOutcome(report, service);
      AiService.AnalyzeReportDecodes(service.value.ai, service.value.fs, report.filePath, report.fileType);
    }
  }

  /** From upload to metrics: a report that the upload handler accepts and
      whose run completes is served back to its owner by the metrics
      handler, and every score in the answer lies in [0, 100]. */
  lemma UploadToMetrics(db: ReportHandlers.Db, user: UserStore.User, form: ReportHandlers.Form,
                        disk: ReportHandlers.Disk, uploadDir: string, maxFileSize: int,
                        timestamp: int, now: nat, service: Service, later: nat, idText: string)
    requires Valid(db.reports)
    requires CodecRoundTrips(service.ai)
    requires var up := ReportHandlers.UploadReport(db, "POST", Some(user), form, disk, uploadDir, maxFileSize, timestamp, now);
      up.2.Some? && Atoi(idText) == Some(up.2.value.id)
    ensures var up := ReportHandlers.UploadReport(db, "POST", Some(user), form, disk, uploadDir, maxFileSize, timestamp, now);
      var row := up.2.value;
      var s' := ApplyUpdates(up.1, row.id, ProcessReportAsync(row, Some(service)), later);
      s'.rows[row.id].processingStatus == "completed" ==>
        var r := ReportHandlers.GetHealthMetrics(ReportHandlers.Db(s', true), Some(service.ai), "GET", Some(user), idText);
        r.JsonResponse? && r.data.Metrics?
        && forall i :: 0 <= i < |r.data.metrics| ==> 0.0 <= r.data.metrics[i].score <= 100.0
  {
    var up := ReportHandlers.UploadReport(db, "POST", Some(user), form, disk, uploadDir, maxFileSize, timestamp, now);
    var row := up.2.value;
    var s' := ApplyUpdates(up.1, row.id, ProcessReportAsync(row, Some(service)), later);
    if s'.rows[row.id].processingStatus == "completed" {
      RunSettlesReport(up.1, row, Some(service), later);
      var stored := s'.rows[row.id];
      assert stored.userId == user.id;
      var lookup := ReportHandlers.Lookup(ReportHandlers.Db(s', true), row.id);
      assert ReportHandlers.Guard(ReportHandlers.Measure, lookup, user.id, true).None?;
    }
  }

  /** A failed run leaves the report unavailable to the summary handler:
      its owner gets 400 "Report is not ready yet". */
  lemma FailedRunNotReady(s: Store, report: Report, service: Option<Service>, now: nat,
                          user: UserStore.User, idText: string)
    requires report.id in s.rows && s.rows[report.id].userId == user.id
    requires Atoi(idText) == Some(report.id)
    requires ApplyUpdates(s, report.id, ProcessReportAsync(report, service), now).rows[report.id].processingStatus == "failed"
    ensures var s' := ApplyUpdates(s, report.id, ProcessReportAsync(report, service), now);
      var r := ReportHandlers.GetReportSummary(ReportHandlers.Db(s', true), "GET", Some(user), idText);
      r.ErrorResponse? && r.status == 400 && r.body.message == ReportHandlers.NotReady
  {}
}
