/**
 * Every way an import can end, read off its inputs: which result it gives,
 * which calls it makes, and what its failure is audited as.
 */
module ImportOutcomes {
  import opened Wrappers
  import opened Hex
  import opened Ingestion
  import opened IngestionProofs

  function Staging(records: seq<Record>): seq<Event> {
    seq(|records|, i requires 0 <= i < |records| => StageCall(records[i]))
  }

  predicate AllStaged(w: World, records: seq<Record>) {
    forall i :: 0 <= i < |records| ==> w.stage(i, records[i]).Ok?
  }

  function Outcomes(w: World, records: seq<Record>): seq<RecordOutcome>
    requires AllStaged(w, records)
  {
    seq(|records|, i requires 0 <= i < |records| => w.stage(i, records[i]).value)
  }

  function SumOfWarnings(outcomes: seq<RecordOutcome>): nat {
    if outcomes == [] then 0 else SumOfWarnings(outcomes[..|outcomes| - 1]) + outcomes[|outcomes| - 1].warningCount
  }

  /** Without a unit of work nothing is called, and nothing is audited. */
  lemma NoUnitOfWorkNoCalls(sha: Sha256, w: World, expected: PreflightSummary, reader: Reader)
    requires !(w.start.Ok? && w.start.value.Ready?)
    ensures ImportRun(sha, w, expected, reader).calls == []
    ensures ImportRun(sha, w, expected, reader).result ==
      if w.start.Err? then Err(Persistence(w.start.error))
      else if w.start.value.Busy? then Err(AlreadyRunning)
      else Ok(w.start.value.report)
  {}

  // ------------------------------------------------------------ the tally

  function StagedAt(outcomes: seq<RecordOutcome>): set<int> { set i | 0 <= i < |outcomes| && outcomes[i].staged }

  function FlaggedAt(outcomes: seq<RecordOutcome>): set<int> { set i | 0 <= i < |outcomes| && outcomes[i].flagged }

  /** What a run that stages everything counts. */
  lemma {:induction false} TalliesAreExact(w: World, records: seq<Record>)
    requires Clean(records) && AllStaged(w, records)
    ensures Consumed(w, records).Going?
    ensures var t, outcomes := Consumed(w, records).tally, Outcomes(w, records);
      && t.staged == |StagedAt(outcomes)|
      && t.promoted == |records|
      && t.flagged == |FlaggedAt(outcomes)|
      && t.warnings == SumOfWarnings(outcomes)
  {
    var outcomes := Outcomes(w, records);
    hide StagedAt, FlaggedAt;
    if records == [] {
      NoOutcomes();
    } else {
      var n := |records| - 1;
      assert forall i :: 0 <= i < n ==> records[..n][i] == records[i];
      TalliesAreExact(w, records[..n]);
      NoErrorsExactly(records[n]);
      assert Outcomes(w, records[..n]) == outcomes[..n];
      OneMoreStaged(outcomes);
      OneMoreFlagged(outcomes);
    }
  }

  lemma NoOutcomes()
    ensures StagedAt([]) == {} && FlaggedAt([]) == {}
  {}

  lemma OneMoreStaged(outcomes: seq<RecordOutcome>)
    requires outcomes != []
    ensures var n := |outcomes| - 1;
      |StagedAt(outcomes)| == |StagedAt(outcomes[..n])| + (if outcomes[n].staged then 1 else 0)
  {
    var n := |outcomes| - 1;
    assert StagedAt(outcomes) == StagedAt(outcomes[..n]) + (if outcomes[n].staged then {n} else {});
  }

  lemma OneMoreFlagged(outcomes: seq<RecordOutcome>)
    requires outcomes != []
    ensures var n := |outcomes| - 1;
      |FlaggedAt(outcomes)| == |FlaggedAt(outcomes[..n])| + (if outcomes[n].flagged then 1 else 0)
  {
    var n := |outcomes| - 1;
    assert FlaggedAt(outcomes) == FlaggedAt(outcomes[..n]) + (if outcomes[n].flagged then {n} else {});
  }

  // ------------------------------------------------------- a bad record

  /** The calls of a failure that is rolled back. */
  function RolledBack(before: seq<Event>, runId: int, attemptId: int, code: string): seq<Event> {
    before + [RollbackCall] + [AuditCall(runId, attemptId, code)]
  }

  lemma {:induction false} StagesAllBefore(w: World, records: seq<Record>)
    requires Clean(records) && AllStaged(w, records)
    ensures StageCalls(w, records) == Staging(records)
  {
    TalliesAreExact(w, records);
    GoingMeansClean(w, records);
  }

  /** The first record with an error issue stops the import with the code of its
      first error, unstaged; the first that the database refuses stops it too. */
  lemma StoppedByTheFirstBadRecord(sha: Sha256, w: World, expected: PreflightSummary, reader: Reader, n: nat) returns (k: int)
    requires w.start.Ok? && w.start.value.Ready?
    requires n < |reader.records| && Clean(reader.records[..n]) && AllStaged(w, reader.records[..n])
    ensures var run, record, ids := ImportRun(sha, w, expected, reader), reader.records[n], w.start.value;
      && (!FreeOfErrors(record) ==>
            && IsFirstError(record, k)
            && run.result == Err(Input(record.issues[k].code))
            && run.calls == RolledBack(Staging(reader.records[..n]), ids.runId, ids.attemptId, record.issues[k].code))
      && (FreeOfErrors(record) && w.stage(n, record).Err? ==>
            && run.result == Err(Persistence(w.stage(n, record).error))
            && run.calls == RolledBack(Staging(reader.records[..n + 1]), ids.runId, ids.attemptId, AuditCode(w.stage(n, record).error)))
  {
    hide Consumed, StageCalls, IsFirstError;
    var records := reader.records;
    TalliesAreExact(w, records[..n]);
    StagesAllBefore(w, records[..n]);
    NoErrorsExactly(records[n]);
    k := 0;
    if !FreeOfErrors(records[n]) { k := FirstErrorOf(records[n]); }
    OneMoreRecord(w, records, n);
    assert Staging(records[..n]) + [StageCall(records[n])] == Staging(records[..n + 1]);
    if Consumed(w, records[..n + 1]).Halted? { HaltIsFinal(w, records, n + 1); }
  }

  /** What a database error is audited as. */
  function AuditCode(e: PersistenceError): string {
    match e
    case Database(code) => code
    case BrokenInvariant => "PERSISTENCE_INVARIANT"
  }

  // ---------------------------------------------------- after the records

  /** The report of this run: its own numbers, and what the database answered. */
  predicate IsReport(report: ImportReport, ids: ImportStart, w: World, records: seq<Record>)
    requires ids.Ready? && AllStaged(w, records)
  {
    && report.runId == ids.runId && report.attemptId == ids.attemptId && !report.alreadyImported
    && report.staged == |StagedAt(Outcomes(w, records))|
    && report.flagged == |FlaggedAt(Outcomes(w, records))|
    && report.promoted == |records|
    && report.warnings == SumOfWarnings(Outcomes(w, records))
  }

  /** The success mark, then the commit; a failed commit is not rolled back. */
  predicate Closed(run: Run, report: ImportReport, ids: ImportStart, w: World, refreshed: seq<Event>)
    requires ids.Ready?
  {
    var marked := refreshed + [MarkCall(report)];
    if w.mark.Some? then
      && run.result == Err(Persistence(w.mark.value))
      && run.calls == RolledBack(marked, ids.runId, ids.attemptId, AuditCode(w.mark.value))
    else if w.commit.Some? then
      && run.result == Err(Persistence(w.commit.value))
      && run.calls == marked + [CommitCall] + [AuditCall(ids.runId, ids.attemptId, AuditCode(w.commit.value))]
    else
      && run.result == Ok(report)
      && run.calls == marked + [CommitCall]
  }

  /** Once every record is staged: the reader, the three checks and the four
      closing calls, each with its own failure, in this order. */
  lemma ChecksInOrder(sha: Sha256, w: World, expected: PreflightSummary, reader: Reader) returns (report: ImportReport)
    requires w.start.Ok? && w.start.value.Ready?
    requires Clean(reader.records) && AllStaged(w, reader.records)
    ensures var run, ids, records := ImportRun(sha, w, expected, reader), w.start.value, reader.records;
      var staged, warnings := Staging(records), SumOfWarnings(Outcomes(w, records));
      var refreshed := staged + [RefreshCall];
      if reader.failure.Some? then
        && run.result == Err(Input(reader.failure.value))
        && run.calls == RolledBack(staged, ids.runId, ids.attemptId, reader.failure.value)
      else if |records| != expected.recordCount then
        && run.result == Err(ParserConsistency(expected.recordCount, |records|))
        && run.calls == RolledBack(staged, ids.runId, ids.attemptId, "PARSER_RECORD_COUNT_MISMATCH")
      else if HexOf(sha(Framed(Keys(records)))) != expected.recordKeysSha256 then
        && run.result == Err(ParserRecordKeysMismatch)
        && run.calls == RolledBack(staged, ids.runId, ids.attemptId, "PARSER_RECORD_KEYS_MISMATCH")
      else if warnings != expected.warningCount then
        && run.result == Err(WarningCountMismatch(expected.warningCount, warnings))
        && run.calls == RolledBack(staged, ids.runId, ids.attemptId, "PARSER_WARNING_COUNT_MISMATCH")
      else if w.refresh.Some? then
        && run.result == Err(Persistence(w.refresh.value))
        && run.calls == RolledBack(refreshed, ids.runId, ids.attemptId, AuditCode(w.refresh.value))
      else
        IsReport(report, ids, w, records) && Closed(run, report, ids, w, refreshed)
  {
    hide Consumed, StageCalls, Framed, HexOf, SumOfWarnings, StagedAt, FlaggedAt;
    var records := reader.records;
    TalliesAreExact(w, records);
    StagesAllBefore(w, records);
    report := ReportOf(w.start.value.runId, w.start.value.attemptId, Consumed(w, records).tally);
    var staged := Staging(records);
    assert staged + [RefreshCall, RollbackCall] == staged + [RefreshCall] + [RollbackCall];
    assert staged + [RefreshCall, MarkCall(report), RollbackCall] == staged + [RefreshCall] + [MarkCall(report)] + [RollbackCall];
    assert staged + [RefreshCall, MarkCall(report), CommitCall] == staged + [RefreshCall] + [MarkCall(report)] + [CommitCall];
  }

  /** The codes failures are known by. */
  lemma CodesAre(e: ImportError)
    ensures CodeOf(e) ==
      match e
      case AlreadyRunning => "IMPORT_ALREADY_RUNNING"
      case Input(code) => code
      case Persistence(error) => AuditCode(error)
      case ParserConsistency(_, _) => "PARSER_RECORD_COUNT_MISMATCH"
      case WarningCountMismatch(_, _) => "PARSER_WARNING_COUNT_MISMATCH"
      case ParserRecordKeysMismatch => "PARSER_RECORD_KEYS_MISMATCH"
  {}
}
