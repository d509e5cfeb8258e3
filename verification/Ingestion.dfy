/**
 * Two-pass ingestion: a validating pass summarises a document, and an import
 * inside one unit of work must agree with the summary or roll back.
 *
 * SHA-256 over the UTF-8 bytes of a text is a function parameter. A running
 * hash is the text absorbed so far, hashed when it is finished.
 */
module Ingestion {
  import opened Wrappers
  import opened Hex

  datatype Severity = Warning | Error

  datatype Issue = Issue(code: string, severity: Severity, message: string)

  datatype Record = Record(key: string, issues: seq<Issue>, document: string)

  // --------------------------------------------------------- record facts

  function OfSeverity(issues: seq<Issue>, severity: Severity): seq<Issue> {
    if issues == [] then []
    else
      var earlier := OfSeverity(issues[..|issues| - 1], severity);
      if issues[|issues| - 1].severity == severity then earlier + [issues[|issues| - 1]] else earlier
  }

  function ErrorsOf(r: Record): seq<Issue> { OfSeverity(r.issues, Error) }

  function WarningsOf(r: Record): nat { |OfSeverity(r.issues, Warning)| }

  function TotalWarnings(records: seq<Record>): nat {
    if records == [] then 0
    else TotalWarnings(records[..|records| - 1]) + WarningsOf(records[|records| - 1])
  }

  function Keys(records: seq<Record>): seq<string> {
    seq(|records|, i requires 0 <= i < |records| => records[i].key)
  }

  predicate DistinctKeys(records: seq<Record>) {
    forall i, j :: 0 <= i < j < |records| ==> records[i].key != records[j].key
  }

  const NUL := '\0'

  /** What both passes feed their hash: every key, each ended by a NUL. */
  function Framed(keys: seq<string>): string {
    if keys == [] then "" else Framed(keys[..|keys| - 1]) + keys[|keys| - 1] + [NUL]
  }

  /** `source_record_key`: the key the adapter gives every record. */
  function SourceRecordKey(sha: Sha256, manufacturer: string, aircraft: string): string {
    HexOf(sha("planephd" + [NUL] + manufacturer + [NUL] + aircraft))
  }

  lemma NoKeysYet(records: seq<Record>)
    ensures Framed(Keys(records[..0])) == ""
  {}

  lemma OneMoreKey(records: seq<Record>, i: nat)
    requires i < |records|
    ensures Framed(Keys(records[..i + 1])) == Framed(Keys(records[..i])) + records[i].key + [NUL]
  {
    assert Keys(records[..i + 1])[..i] == Keys(records[..i]);
  }

  // ------------------------------------------------------------ preflight

  const MAX_ERRORS := 100

  datatype PreflightSummary = PreflightSummary(recordCount: nat, warningCount: nat, recordKeysSha256: string)

  datatype SourceError = Unreadable | Json | EmptyDocument | Validation(issues: seq<Issue>)

  function DuplicateKey(key: string): Issue {
    Issue("DUPLICATE_SOURCE_RECORD_KEY", Error, "duplicate source record key " + key)
  }

  predicate Repeats(records: seq<Record>, i: nat)
    requires i < |records|
  {
    exists j :: 0 <= j < i && records[j].key == records[i].key
  }

  /** Every finding of the document, before the report is cut short. */
  function Findings(records: seq<Record>): seq<Issue> {
    if records == [] then []
    else
      var n := |records| - 1;
      Findings(records[..n]) + ErrorsOf(records[n])
        + (if Repeats(records, n) then [DuplicateKey(records[n].key)] else [])
  }

  function Cut(issues: seq<Issue>): seq<Issue> {
    if |issues| <= MAX_ERRORS then issues else issues[..MAX_ERRORS]
  }

  /** Room left in a report that is cut at `MAX_ERRORS`. */
  function Room(errors: seq<Issue>): nat {
    if |errors| < MAX_ERRORS then MAX_ERRORS - |errors| else 0
  }

  lemma CutOfSum(full: seq<Issue>, found: seq<Issue>)
    ensures Cut(full + found) == Cut(full) + (if |found| <= Room(Cut(full)) then found else found[..Room(Cut(full))])
  {}

  lemma OneMoreFinding(records: seq<Record>, i: nat)
    requires i < |records|
    ensures Findings(records[..i + 1]) == Findings(records[..i]) + ErrorsOf(records[i])
      + (if Repeats(records, i) then [DuplicateKey(records[i].key)] else [])
  {
    assert records[..i + 1][..i] == records[..i];
  }

  lemma NoFindingsYet(records: seq<Record>)
    ensures Cut(Findings(records[..0])) == []
  {}

  lemma CutIsEmptyOnlyForNone(issues: seq<Issue>)
    ensures Cut(issues) == [] <==> issues == []
  {}

  function Summary(sha: Sha256, records: seq<Record>): PreflightSummary {
    PreflightSummary(|records|, TotalWarnings(records), HexOf(sha(Framed(Keys(records)))))
  }

  /** What the captured file holds, if it can be opened again: `malformed` is set
      when it stops being JSON after `records`. */
  datatype Source = Unopened | Document(records: seq<Record>, malformed: bool)

  function PreflightResult(sha: Sha256, source: Source): Result<PreflightSummary, SourceError> {
    match source
    case Unopened => Err(Unreadable)
    case Document(records, malformed) =>
      if malformed then Err(Json)
      else if records == [] then Err(EmptyDocument)
      else if Findings(records) != [] then Err(Validation(Cut(Findings(records))))
      else Ok(Summary(sha, records))
  }

  method Preflight(sha: Sha256, source: Source) returns (result: Result<PreflightSummary, SourceError>)
    ensures result == PreflightResult(sha, source)
  {
    if source.Unopened? { return Err(Unreadable); }
    result := PreflightRecords(sha, source.records, source.malformed);
  }

  /** The validating pass: one loop, five running values. */
  method PreflightRecords(sha: Sha256, records: seq<Record>, malformed: bool) returns (result: Result<PreflightSummary, SourceError>)
    ensures result == PreflightResult(sha, Document(records, malformed))
  {
    hide Framed, Keys, Findings, Cut;
    NoKeysYet(records);
    NoFindingsYet(records);
    var recordCount, warningCount := 0, 0;
    var errors: seq<Issue> := [];
    var sourceKeys: set<string> := {};
    var absorbed := "";
    while recordCount < |records|
      invariant recordCount <= |records|
      invariant warningCount == TotalWarnings(records[..recordCount])
      invariant errors == Cut(Findings(records[..recordCount]))
      invariant forall k :: k in sourceKeys <==> exists j :: 0 <= j < recordCount && records[j].key == k
      invariant absorbed == Framed(Keys(records[..recordCount]))
    {
      var record := records[recordCount];
      ghost var before := Findings(records[..recordCount]);
      assert records[..recordCount + 1][..recordCount] == records[..recordCount];
      OneMoreKey(records, recordCount);
      OneMoreFinding(records, recordCount);
      assert Repeats(records, recordCount) <==> record.key in sourceKeys;
      warningCount := warningCount + |OfSeverity(record.issues, Warning)|;
      var found := ErrorsOf(record);
      CutOfSum(before, found);
      errors := errors + (if |found| <= Room(errors) then found else found[..Room(errors)]);
      CutOfSum(before + found, [DuplicateKey(record.key)]);
      assert before + found + [] == before + found;
      assert [DuplicateKey(record.key)][..0] == [] && errors + [] == errors;
      if record.key in sourceKeys && |errors| < MAX_ERRORS {
        errors := errors + [DuplicateKey(record.key)];
      }
      sourceKeys := sourceKeys + {record.key};
      absorbed := absorbed + record.key;
      absorbed := absorbed + [NUL];
      recordCount := recordCount + 1;
    }
    CutIsEmptyOnlyForNone(Findings(records));
    assert records[..recordCount] == records;
    if malformed { return Err(Json); }
    if recordCount == 0 { return Err(EmptyDocument); }
    if errors != [] { return Err(Validation(errors)); }
    var digest := HexByTable(sha(absorbed));
    result := Ok(PreflightSummary(recordCount, warningCount, digest));
  }

  // --------------------------------------------------------------- import

  datatype PersistenceError = Database(code: string) | BrokenInvariant

  datatype ImportError =
    | AlreadyRunning
    | Input(code: string)
    | Persistence(error: PersistenceError)
    | ParserConsistency(expected: nat, actual: nat)
    | WarningCountMismatch(expected: nat, actual: nat)
    | ParserRecordKeysMismatch

  function CodeOf(e: ImportError): string {
    match e
    case AlreadyRunning => "IMPORT_ALREADY_RUNNING"
    case Input(code) => code
    case Persistence(Database(code)) => code
    case Persistence(BrokenInvariant) => "PERSISTENCE_INVARIANT"
    case ParserConsistency(_, _) => "PARSER_RECORD_COUNT_MISMATCH"
    case WarningCountMismatch(_, _) => "PARSER_WARNING_COUNT_MISMATCH"
    case ParserRecordKeysMismatch => "PARSER_RECORD_KEYS_MISMATCH"
  }

  datatype ImportReport = ImportReport(runId: int, attemptId: int, staged: nat, promoted: nat, flagged: nat, warnings: nat, alreadyImported: bool)

  datatype RecordOutcome = RecordOutcome(staged: bool, flagged: bool, warningCount: nat)

  datatype ImportStart = AlreadySucceeded(report: ImportReport) | Busy | Ready(runId: int, attemptId: int)

  /** What a reader hands over: records, then the end or a parse failure. */
  datatype Reader = Reader(records: seq<Record>, failure: Option<string>)

  /** What the store and its transaction answer. */
  datatype World = World(
    start: Result<ImportStart, PersistenceError>,
    stage: (nat, Record) -> Result<RecordOutcome, PersistenceError>,
    refresh: Option<PersistenceError>,
    mark: Option<PersistenceError>,
    commit: Option<PersistenceError>)

  /** Every call made on the store and the unit of work, in order. */
  datatype Event =
    | StageCall(record: Record)
    | RefreshCall
    | MarkCall(report: ImportReport)
    | CommitCall
    | RollbackCall
    | AuditCall(runId: int, attemptId: int, code: string)

  datatype Tally = Tally(staged: nat, promoted: nat, flagged: nat, warnings: nat)

  /** How far the records have been taken: `calls` were staged, the last of
      which failed if `error` is a persistence error. */
  datatype Progress = Going(tally: Tally) | Halted(error: ImportError)

  function Count(t: Tally, o: RecordOutcome): Tally {
    Tally(t.staged + (if o.staged then 1 else 0), t.promoted + 1, t.flagged + (if o.flagged then 1 else 0), t.warnings + o.warningCount)
  }

  function Consumed(w: World, records: seq<Record>): Progress {
    if records == [] then Going(Tally(0, 0, 0, 0))
    else
      var n := |records| - 1;
      match Consumed(w, records[..n])
      case Halted(e) => Halted(e)
      case Going(t) =>
        if ErrorsOf(records[n]) != [] then Halted(Input(ErrorsOf(records[n])[0].code))
        else match w.stage(n, records[n])
          case Err(e) => Halted(Persistence(e))
          case Ok(o) => Going(Count(t, o))
  }

  function StageCalls(w: World, records: seq<Record>): seq<Event> {
    if records == [] then []
    else
      var n := |records| - 1;
      StageCalls(w, records[..n])
        + (if Consumed(w, records[..n]).Going? && ErrorsOf(records[n]) == [] then [StageCall(records[n])] else [])
  }

  lemma NothingYet(w: World, records: seq<Record>)
    ensures Consumed(w, records[..0]) == Going(Tally(0, 0, 0, 0)) && StageCalls(w, records[..0]) == []
    ensures Framed(Keys(records[..0])) == ""
  {}

  /** One more record, when none before it was given up. */
  lemma OneMoreRecord(w: World, records: seq<Record>, i: nat)
    requires i < |records| && Consumed(w, records[..i]).Going?
    ensures var r := records[i];
      if ErrorsOf(r) != [] then
        && Consumed(w, records[..i + 1]) == Halted(Input(ErrorsOf(r)[0].code))
        && StageCalls(w, records[..i + 1]) == StageCalls(w, records[..i])
      else
        && StageCalls(w, records[..i + 1]) == StageCalls(w, records[..i]) + [StageCall(r)]
        && Consumed(w, records[..i + 1]) == match w.stage(i, r)
             case Err(e) => Halted(Persistence(e))
             case Ok(o) => Going(Count(Consumed(w, records[..i]).tally, o))
  {
    assert records[..i + 1][..i] == records[..i];
  }

  function ReportOf(runId: int, attemptId: int, t: Tally): ImportReport {
    ImportReport(runId, attemptId, t.staged, t.promoted, t.flagged, t.warnings, false)
  }

  /** The three cross-checks, in the order they are made. */
  function CrossCheck(sha: Sha256, expected: PreflightSummary, records: seq<Record>, t: Tally): Option<ImportError> {
    if |records| != expected.recordCount then Some(ParserConsistency(expected.recordCount, |records|))
    else if HexOf(sha(Framed(Keys(records)))) != expected.recordKeysSha256 then Some(ParserRecordKeysMismatch)
    else if t.warnings != expected.warningCount then Some(WarningCountMismatch(expected.warningCount, t.warnings))
    else None
  }

  /** Why the records cannot be imported, or the tally when they can. */
  function Checked(sha: Sha256, w: World, expected: PreflightSummary, reader: Reader): Result<Tally, ImportError> {
    match Consumed(w, reader.records)
    case Halted(e) => Err(e)
    case Going(t) =>
      if reader.failure.Some? then Err(Input(reader.failure.value))
      else match CrossCheck(sha, expected, reader.records, t)
        case Some(e) => Err(e)
        case None => Ok(t)
  }

  datatype Run = Run(result: Result<ImportReport, ImportError>, calls: seq<Event>)

  function Failed(id: (int, int), e: ImportError, calls: seq<Event>): Run {
    Run(Err(e), calls + [AuditCall(id.0, id.1, CodeOf(e))])
  }

  /** A whole import as a function of its inputs: the specification of `Import`. */
  function ImportRun(sha: Sha256, w: World, expected: PreflightSummary, reader: Reader): Run {
    match w.start
    case Err(e) => Run(Err(Persistence(e)), [])
    case Ok(AlreadySucceeded(report)) => Run(Ok(report), [])
    case Ok(Busy) => Run(Err(AlreadyRunning), [])
    case Ok(Ready(runId, attemptId)) =>
      var id := (runId, attemptId);
      var staged := StageCalls(w, reader.records);
      match Checked(sha, w, expected, reader)
      case Err(e) => Failed(id, e, staged + [RollbackCall])
      case Ok(t) =>
        var report := ReportOf(runId, attemptId, t);
        if w.refresh.Some? then Failed(id, Persistence(w.refresh.value), staged + [RefreshCall, RollbackCall])
        else if w.mark.Some? then Failed(id, Persistence(w.mark.value), staged + [RefreshCall, MarkCall(report), RollbackCall])
        else if w.commit.Some? then Failed(id, Persistence(w.commit.value), staged + [RefreshCall, MarkCall(report), CommitCall])
        else Run(Ok(report), staged + [RefreshCall, MarkCall(report), CommitCall])
  }

  /** The service, with the log of every call it makes. */
  class IngestionService {
    const sha: Sha256
    const world: World
    var calls: seq<Event>

    constructor (sha: Sha256, world: World)
      ensures this.sha == sha && this.world == world && calls == []
    {
      this.sha, this.world, calls := sha, world, [];
    }

    method Import(expected: PreflightSummary, reader: Reader) returns (result: Result<ImportReport, ImportError>)
      modifies this
      ensures result == ImportRun(sha, world, expected, reader).result
      ensures calls == old(calls) + ImportRun(sha, world, expected, reader).calls
    {
      hide Checked, StageCalls;
      if world.start.Err? { return Err(Persistence(world.start.error)); }
      match world.start.value {
        case AlreadySucceeded(report) => return Ok(report);
        case Busy => return Err(AlreadyRunning);
        case Ready(runId, attemptId) =>
          result := ConsumeRecords(expected, reader, runId, attemptId);
          if result.Err? {
            RollbackAndAudit(runId, attemptId, result.error);
            return;
          }
          calls := calls + [MarkCall(result.value)];
          if world.mark.Some? {
            result := Err(Persistence(world.mark.value));
            RollbackAndAudit(runId, attemptId, result.error);
            return;
          }
          calls := calls + [CommitCall];
          if world.commit.Some? {
            result := Err(Persistence(world.commit.value));
            AuditFailure(runId, attemptId, result.error);
          }
      }
    }

    method RollbackAndAudit(runId: int, attemptId: int, e: ImportError)
      modifies this
      ensures calls == old(calls) + [RollbackCall, AuditCall(runId, attemptId, CodeOf(e))]
    {
      calls := calls + [RollbackCall];
      AuditFailure(runId, attemptId, e);
    }

    method AuditFailure(runId: int, attemptId: int, e: ImportError)
      modifies this
      ensures calls == old(calls) + [AuditCall(runId, attemptId, CodeOf(e))]
    {
      calls := calls + [AuditCall(runId, attemptId, CodeOf(e))];
    }

    /** Stages every record, makes the three checks and refreshes the models. */
    method ConsumeRecords(expected: PreflightSummary, reader: Reader, runId: int, attemptId: int)
      returns (result: Result<ImportReport, ImportError>)
      modifies this
      ensures var checked := Checked(sha, world, expected, reader);
        && result == (match checked
            case Err(e) => Err(e)
            case Ok(t) => if world.refresh.Some? then Err(Persistence(world.refresh.value)) else Ok(ReportOf(runId, attemptId, t)))
        && calls == old(calls) + StageCalls(world, reader.records) + (if checked.Ok? then [RefreshCall] else [])
    {
      hide Consumed, StageCalls, Framed, Keys;
      var records := reader.records;
      NothingYet(world, records);
      var count := 0;
      var absorbed := "";
      var tally := Tally(0, 0, 0, 0);
      while count < |records|
        invariant count <= |records|
        invariant Consumed(world, records[..count]) == Going(tally)
        invariant calls == old(calls) + StageCalls(world, records[..count])
        invariant absorbed == Framed(Keys(records[..count]))
      {
        var record := records[count];
        OneMoreKey(records, count);
        OneMoreRecord(world, records, count);
        absorbed := absorbed + record.key;
        absorbed := absorbed + [NUL];
        if ErrorsOf(record) != [] {
          HaltIsFinal(world, records, count + 1);
          return Err(Input(ErrorsOf(record)[0].code));
        }
        calls := calls + [StageCall(record)];
        var outcome := world.stage(count, record);
        if outcome.Err? {
          HaltIsFinal(world, records, count + 1);
          return Err(Persistence(outcome.error));
        }
        count := count + 1;
        tally := Count(tally, outcome.value);
      }
      assert records[..count] == records;
      if reader.failure.Some? { return Err(Input(reader.failure.value)); }
      if count != expected.recordCount { return Err(ParserConsistency(expected.recordCount, count)); }
      var digest := HexByFormat(sha(absorbed));
      if digest != expected.recordKeysSha256 { return Err(ParserRecordKeysMismatch); }
      if tally.warnings != expected.warningCount { return Err(WarningCountMismatch(expected.warningCount, tally.warnings)); }
      calls := calls + [RefreshCall];
      if world.refresh.Some? { return Err(Persistence(world.refresh.value)); }
      result := Ok(ReportOf(runId, attemptId, tally));
    }
  }

  /** Nothing is staged once the records have been given up. */
  lemma {:induction false} HaltIsFinal(w: World, records: seq<Record>, k: nat)
    requires k <= |records| && Consumed(w, records[..k]).Halted?
    ensures Consumed(w, records) == Consumed(w, records[..k])
    ensures StageCalls(w, records) == StageCalls(w, records[..k])
  {
    if k == |records| {
      assert records[..k] == records;
    } else {
      var n := |records| - 1;
      assert records[..n][..k] == records[..k];
      HaltIsFinal(w, records[..n], k);
    }
  }
}
