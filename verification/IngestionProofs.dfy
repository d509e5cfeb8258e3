/** What the two passes guarantee together, and the protocol of one import. */
module IngestionProofs {
  import opened Wrappers
  import opened Hex
  import opened Ingestion
  import opened Framing

  // ------------------------------------------------------------- severity

  /** No issue of the record is an error: read off its issues. */
  predicate FreeOfErrors(r: Record) { forall k :: 0 <= k < |r.issues| ==> !r.issues[k].severity.Error? }

  predicate Clean(records: seq<Record>) {
    forall i :: 0 <= i < |records| ==> FreeOfErrors(records[i])
  }

  /** Where in a document the warnings stand. */
  function WarningsAt(records: seq<Record>): set<(int, int)> {
    set i, k | 0 <= i < |records| && 0 <= k < |records[i].issues| && records[i].issues[k].severity.Warning? :: (i, k)
  }

  function WarningPlaces(issues: seq<Issue>): set<int> {
    set k | 0 <= k < |issues| && issues[k].severity.Warning?
  }

  /** Issues of one severity, in order: the strictly increasing places `at` are
      exactly those that have it. */
  lemma {:induction false} OfSeveritySelects(issues: seq<Issue>, severity: Severity) returns (at: seq<int>)
    ensures |at| == |OfSeverity(issues, severity)|
    ensures forall m :: 0 <= m < |at| ==> 0 <= at[m] < |issues| && OfSeverity(issues, severity)[m] == issues[at[m]]
    ensures forall m, n :: 0 <= m < n < |at| ==> at[m] < at[n]
    ensures forall k :: 0 <= k < |issues| ==> (k in at <==> issues[k].severity == severity)
  {
    if issues == [] {
      at := [];
    } else {
      var n := |issues| - 1;
      at := OfSeveritySelects(issues[..n], severity);
      if issues[n].severity == severity { at := at + [n]; }
    }
  }

  lemma NoErrorsExactly(r: Record)
    ensures ErrorsOf(r) == [] <==> FreeOfErrors(r)
  {
    var at := OfSeveritySelects(r.issues, Error);
    if at != [] { assert at[0] in at; }
  }

  lemma FirstErrorOf(r: Record) returns (k: int)
    requires !FreeOfErrors(r)
    ensures IsFirstError(r, k) && ErrorsOf(r) != [] && ErrorsOf(r)[0] == r.issues[k]
  {
    NoErrorsExactly(r);
    var at := OfSeveritySelects(r.issues, Error);
    k := at[0];
    assert k in at && forall m :: 0 <= m < |at| ==> k <= at[m];
  }

  predicate IsFirstError(r: Record, k: int) {
    0 <= k < |r.issues| && r.issues[k].severity.Error? && forall j :: 0 <= j < k ==> !r.issues[j].severity.Error?
  }

  lemma {:induction false} WarningsCounted(issues: seq<Issue>)
    ensures |OfSeverity(issues, Warning)| == |WarningPlaces(issues)|
  {
    if issues == [] {
      assert WarningPlaces(issues) == {};
    } else {
      var n := |issues| - 1;
      WarningsCounted(issues[..n]);
      assert WarningPlaces(issues) == WarningPlaces(issues[..n]) + (if issues[n].severity.Warning? then {n} else {});
    }
  }

  lemma {:induction false} WarningsCountedAt(i: int, issues: seq<Issue>)
    ensures |OfSeverity(issues, Warning)| == |set k | 0 <= k < |issues| && issues[k].severity.Warning? :: (i, k)|
  {
    var pairs := set k | 0 <= k < |issues| && issues[k].severity.Warning? :: (i, k);
    if issues == [] {
      assert pairs == {};
    } else {
      var n := |issues| - 1;
      WarningsCountedAt(i, issues[..n]);
      var earlier := set k | 0 <= k < n && issues[..n][k].severity.Warning? :: (i, k);
      assert pairs == earlier + (if issues[n].severity.Warning? then {(i, n)} else {});
    }
  }

  lemma {:induction false} TotalWarningsCounts(records: seq<Record>)
    ensures TotalWarnings(records) == |WarningsAt(records)|
  {
    if records == [] {
      assert WarningsAt(records) == {};
    } else {
      var n := |records| - 1;
      TotalWarningsCounts(records[..n]);
      var issues := records[n].issues;
      WarningsCountedAt(n, issues);
      var last := set k | 0 <= k < |issues| && issues[k].severity.Warning? :: (n, k);
      var earlier := WarningsAt(records[..n]);
      assert WarningsAt(records) == earlier + last by {
        forall i, k ensures (i, k) in WarningsAt(records) <==> (i, k) in earlier + last {
          if 0 <= i < n { assert records[..n][i] == records[i]; }
        }
      }
      assert earlier !! last;
    }
  }

  // ------------------------------------------------------------ preflight

  lemma OneMoreClean(records: seq<Record>)
    requires records != []
    ensures var n := |records| - 1;
      && (Clean(records) <==> Clean(records[..n]) && FreeOfErrors(records[n]))
      && (DistinctKeys(records) <==> DistinctKeys(records[..n]) && !Repeats(records, n))
  {
    hide FreeOfErrors;
    assert forall i :: 0 <= i < |records| - 1 ==> records[..|records| - 1][i] == records[i];
  }

  lemma {:induction false} NoFindingsExactly(records: seq<Record>)
    ensures Findings(records) == [] <==> Clean(records) && DistinctKeys(records)
  {
    if records != [] {
      var n := |records| - 1;
      NoFindingsExactly(records[..n]);
      NoErrorsExactly(records[n]);
      hide OfSeverity, FreeOfErrors, DistinctKeys, Clean, Repeats;
      OneMoreClean(records);
    }
  }

  /** An error issue of record `i`, or the report that its key was seen before. */
  predicate IsFindingAt(records: seq<Record>, i: int, issue: Issue)
    requires 0 <= i < |records|
  {
    || (exists k :: 0 <= k < |records[i].issues| && records[i].issues[k] == issue && issue.severity.Error?)
    || (IsDuplicateReport(issue, records[i].key) && exists j :: 0 <= j < i && records[j].key == records[i].key)
  }

  predicate IsRealFinding(records: seq<Record>, issue: Issue) {
    exists i :: 0 <= i < |records| && IsFindingAt(records, i, issue)
  }

  predicate IsDuplicateReport(issue: Issue, key: string) {
    issue == Issue("DUPLICATE_SOURCE_RECORD_KEY", Error, "duplicate source record key " + key)
  }

  lemma SelectedIssues(issues: seq<Issue>, severity: Severity, issue: Issue)
    ensures issue in OfSeverity(issues, severity) <==> issue in issues && issue.severity == severity
  {
    var at := OfSeveritySelects(issues, severity);
    if issue in OfSeverity(issues, severity) {
      var m :| 0 <= m < |at| && OfSeverity(issues, severity)[m] == issue;
      assert at[m] in at;
    }
    if issue in issues && issue.severity == severity {
      var k :| 0 <= k < |issues| && issues[k] == issue;
      var m :| 0 <= m < |at| && at[m] == k;
    }
  }

  lemma ErrorIssues(r: Record, issue: Issue)
    ensures issue in ErrorsOf(r) <==> exists k :: 0 <= k < |r.issues| && r.issues[k] == issue && issue.severity.Error?
  {
    SelectedIssues(r.issues, Error, issue);
  }

  lemma DuplicateReports(issue: Issue, key: string)
    ensures IsDuplicateReport(issue, key) <==> issue == DuplicateKey(key)
  {}

  lemma LastFindings(records: seq<Record>, issue: Issue)
    requires records != []
    ensures var n := |records| - 1;
      issue in Findings(records) <==> issue in Findings(records[..n]) || IsFindingAt(records, n, issue)
  {
    hide ErrorsOf, DuplicateKey, IsDuplicateReport;
    var n := |records| - 1;
    ErrorIssues(records[n], issue);
    DuplicateReports(issue, records[n].key);
    var dup := if Repeats(records, n) then [DuplicateKey(records[n].key)] else [];
    assert issue in dup <==> Repeats(records, n) && issue == DuplicateKey(records[n].key);
    assert Findings(records) == Findings(records[..n]) + ErrorsOf(records[n]) + dup;
    hide Findings;
  }

  lemma {:induction false} FindingsAreReal(records: seq<Record>, issue: Issue)
    ensures issue in Findings(records) <==> IsRealFinding(records, issue)
  {
    if records != [] {
      var n := |records| - 1;
      FindingsAreReal(records[..n], issue);
      LastFindings(records, issue);
      hide Findings;
      forall i | 0 <= i < n ensures IsFindingAt(records[..n], i, issue) <==> IsFindingAt(records, i, issue) {
        EarlierFindings(records, i, issue);
      }
      hide IsFindingAt;
    }
  }

  lemma EarlierFindings(records: seq<Record>, i: int, issue: Issue)
    requires 0 <= i < |records| - 1
    ensures IsFindingAt(records[..|records| - 1], i, issue) <==> IsFindingAt(records, i, issue)
  {
    var shorter := records[..|records| - 1];
    assert forall j :: 0 <= j <= i ==> shorter[j] == records[j];
  }

  /** Although its report stops at a hundred errors, preflight accepts exactly
      the non-empty documents with no error issue and no repeated key. */
  lemma PreflightAcceptsExactly(sha: Sha256, source: Source)
    ensures PreflightResult(sha, source).Ok? <==>
      source.Document? && !source.malformed && source.records != [] && Clean(source.records) && DistinctKeys(source.records)
  {
    if source.Document? { NoFindingsExactly(source.records); }
  }

  /** The summary counts records and warnings, and hashes the keys. */
  lemma SummaryIsExact(sha: Sha256, source: Source)
    requires PreflightResult(sha, source).Ok?
    ensures var summary := PreflightResult(sha, source).value;
      && summary.recordCount == |source.records|
      && summary.warningCount == |WarningsAt(source.records)|
      && summary.recordKeysSha256 == HexOf(sha(Framed(Keys(source.records))))
  {
    TotalWarningsCounts(source.records);
  }

  /** Why a source is refused; every reported issue is real, at most a hundred
      are reported, and none is left out below that. */
  lemma RefusalIsExact(sha: Sha256, source: Source)
    requires PreflightResult(sha, source).Err?
    ensures var error := PreflightResult(sha, source).error;
      && (error.Unreadable? <==> source.Unopened?)
      && (error.Json? <==> source.Document? && source.malformed)
      && (error.EmptyDocument? <==> source.Document? && !source.malformed && source.records == [])
      && (error.Validation? ==>
            && 1 <= |error.issues| <= 100
            && (forall issue <- error.issues :: IsRealFinding(source.records, issue))
            && (|error.issues| < 100 ==> forall issue :: IsRealFinding(source.records, issue) ==> issue in error.issues))
  {
    if PreflightResult(sha, source).error.Validation? {
      forall issue ensures issue in Findings(source.records) <==> IsRealFinding(source.records, issue) {
        FindingsAreReal(source.records, issue);
      }
    }
  }

  // ------------------------------------------------------ two-pass results

  lemma {:induction false} GoingMeansClean(w: World, records: seq<Record>)
    requires Consumed(w, records).Going?
    ensures Clean(records)
    ensures var t := Consumed(w, records).tally; t.promoted == |records| && t.flagged <= t.promoted && t.staged <= t.promoted
    ensures StageCalls(w, records) == seq(|records|, i requires 0 <= i < |records| => StageCall(records[i]))
  {
    hide OfSeverity;
    if records != [] {
      var n := |records| - 1;
      GoingMeansClean(w, records[..n]);
      NoErrorsExactly(records[n]);
      assert forall i :: 0 <= i < n ==> records[i] == records[..n][i];
    }
  }

  /** A fresh success made every call, in this order, none of them failed, and
      the records met all three checks. */
  lemma SuccessMadeEveryCall(sha: Sha256, w: World, expected: PreflightSummary, reader: Reader)
    requires w.start.Ok? && w.start.value.Ready?
    requires ImportRun(sha, w, expected, reader).result.Ok?
    ensures var run := ImportRun(sha, w, expected, reader);
      && run.calls == seq(|reader.records|, i requires 0 <= i < |reader.records| => StageCall(reader.records[i]))
           + [RefreshCall, MarkCall(run.result.value), CommitCall]
      && w.refresh.None? && w.mark.None? && w.commit.None?
    ensures reader.failure.None? && Clean(reader.records)
    ensures |reader.records| == expected.recordCount
    ensures HexOf(sha(Framed(Keys(reader.records)))) == expected.recordKeysSha256
    ensures var report := ImportRun(sha, w, expected, reader).result.value;
      && report.promoted == expected.recordCount && report.flagged <= report.promoted
      && report.warnings == expected.warningCount && !report.alreadyImported
  {
    hide Framed, HexOf;
    GoingMeansClean(w, reader.records);
  }

  /** An import that succeeds against a summary of `first` promoted the records
      `first` listed: the same keys in the same order, all distinct, none with
      an error. Nothing is asked of the second document, and of the digest only
      that it does not confuse the two. */
  lemma TwoPassSoundness(sha: Sha256, first: seq<Record>, w: World, reader: Reader, expected: PreflightSummary)
    requires PreflightResult(sha, Document(first, false)) == Ok(expected)
    requires w.start.Ok? && w.start.value.Ready?
    requires ImportRun(sha, w, expected, reader).result.Ok?
    requires AllNulFree(Keys(first))
    requires sha(Framed(Keys(first))) == sha(Framed(Keys(reader.records))) ==> Framed(Keys(first)) == Framed(Keys(reader.records))
    ensures Keys(reader.records) == Keys(first) && reader.failure == None
    ensures Clean(reader.records) && DistinctKeys(reader.records)
    ensures var report := ImportRun(sha, w, expected, reader).result.value;
      && report.promoted == |first| && report.flagged <= report.promoted
      && report.warnings == |WarningsAt(first)|
      && !report.alreadyImported
  {
    hide Framed, HexOf, OfSeverity, ImportRun, Findings, TotalWarnings, Clean, WarningsAt;
    NoFindingsExactly(first);
    TotalWarningsCounts(first);
    SuccessMadeEveryCall(sha, w, expected, reader);
    HexIsInjective(sha(Framed(Keys(first))), sha(Framed(Keys(reader.records))));
    EqualLengthFraming(Keys(first), Keys(reader.records));
    forall i, j | 0 <= i < j < |reader.records| ensures reader.records[i].key != reader.records[j].key {
      assert Keys(reader.records)[i] == Keys(first)[i] && Keys(reader.records)[j] == Keys(first)[j];
    }
  }

  /** A world that counts each record's own warnings. */
  ghost predicate CountsWarnings(w: World) {
    forall i: nat, r :: w.stage(i, r).Ok? ==> w.stage(i, r).value.warningCount == |WarningPlaces(r.issues)|
  }

  lemma {:induction false} TallyCountsWarnings(w: World, records: seq<Record>)
    requires CountsWarnings(w) && Clean(records)
    ensures Consumed(w, records).Going? ==> Consumed(w, records).tally.warnings == TotalWarnings(records)
    ensures Consumed(w, records).Halted? ==> Consumed(w, records).error.Persistence?
  {
    if records != [] {
      var n := |records| - 1;
      TallyCountsWarnings(w, records[..n]);
      NoErrorsExactly(records[n]);
      WarningsCounted(records[n].issues);
    }
  }

  /** Reading an accepted document again, only the database can fail the import. */
  lemma TwoPassCompleteness(sha: Sha256, records: seq<Record>, w: World, expected: PreflightSummary)
    requires PreflightResult(sha, Document(records, false)) == Ok(expected)
    requires CountsWarnings(w) && w.start.Ok? && w.start.value.Ready?
    ensures var result := ImportRun(sha, w, expected, Reader(records, None)).result;
      && (result.Err? ==> result.error.Persistence?)
      && (result.Ok? ==> result.value.promoted == expected.recordCount && result.value.warnings == expected.warningCount)
      && (result.Ok? <==> w.refresh.None? && w.mark.None? && w.commit.None? && forall i :: 0 <= i < |records| ==> w.stage(i, records[i]).Ok?)
  {
    NoFindingsExactly(records);
    TallyCountsWarnings(w, records);
    GoingExactly(w, records);
    if Consumed(w, records).Going? { GoingMeansClean(w, records); }
  }

  lemma {:induction false} GoingExactly(w: World, records: seq<Record>)
    requires Clean(records)
    ensures Consumed(w, records).Going? <==> forall i :: 0 <= i < |records| ==> w.stage(i, records[i]).Ok?
  {
    if records != [] {
      var n := |records| - 1;
      GoingExactly(w, records[..n]);
      NoErrorsExactly(records[n]);
      assert forall i :: 0 <= i < n ==> records[..n][i] == records[i];
    }
  }

  // -------------------------------------------------------------- protocol

  datatype Kind = Closing | Auditing | Staging

  predicate Is(kind: Kind, e: Event) {
    match kind
    case Closing => e.CommitCall? || e.RollbackCall?
    case Auditing => e.AuditCall?
    case Staging => e.StageCall?
  }

  function Occurrences(calls: seq<Event>, kind: Kind): nat {
    if calls == [] then 0
    else Occurrences(calls[..|calls| - 1], kind) + (if Is(kind, calls[|calls| - 1]) then 1 else 0)
  }

  lemma {:induction false} OccurrencesAdd(a: seq<Event>, b: seq<Event>, kind: Kind)
    ensures Occurrences(a + b, kind) == Occurrences(a, kind) + Occurrences(b, kind)
  {
    if b == [] {
      assert a + b == a;
    } else {
      var n := |b| - 1;
      OccurrencesAdd(a, b[..n], kind);
      assert (a + b)[..|a| + n] == a + b[..n];
    }
  }

  lemma OccursOnce(e: Event, kind: Kind)
    ensures Occurrences([e], kind) == if Is(kind, e) then 1 else 0
  {
    assert [e][..0] == [];
  }

  lemma NoneYet(kind: Kind)
    ensures Occurrences([], kind) == 0
  {}

  lemma {:induction false} OnlyStageCalls(w: World, records: seq<Record>, kind: Kind)
    ensures !kind.Staging? ==> Occurrences(StageCalls(w, records), kind) == 0
    ensures |StageCalls(w, records)| <= |records|
    ensures forall i :: 0 <= i < |StageCalls(w, records)| ==> StageCalls(w, records)[i] == StageCall(records[i])
  {
    hide OfSeverity, Occurrences;
    NoneYet(kind);
    if records != [] {
      var n := |records| - 1;
      var earlier := StageCalls(w, records[..n]);
      OnlyStageCalls(w, records[..n], kind);
      if Consumed(w, records[..n]).Going? { GoingMeansClean(w, records[..n]); }
      OccurrencesAdd(earlier, [StageCall(records[n])], kind);
      OccursOnce(StageCall(records[n]), kind);
      assert earlier + [] == earlier;
    }
  }

  /** The calls that follow the staging. */
  function Tail(sha: Sha256, w: World, expected: PreflightSummary, reader: Reader): seq<Event> {
    ImportRun(sha, w, expected, reader).calls[StagedPrefix(sha, w, expected, reader)..]
  }

  function StagedPrefix(sha: Sha256, w: World, expected: PreflightSummary, reader: Reader): (n: nat)
    ensures n <= |ImportRun(sha, w, expected, reader).calls|
  {
    if w.start.Ok? && w.start.value.Ready? then |StageCalls(w, reader.records)| else 0
  }

  lemma {:induction false} ShortTail(tail: seq<Event>, kind: Kind)
    requires 0 < |tail| <= 4
    ensures Occurrences(tail, kind) ==
      (if Is(kind, tail[0]) then 1 else 0) + (if |tail| > 1 && Is(kind, tail[1]) then 1 else 0)
      + (if |tail| > 2 && Is(kind, tail[2]) then 1 else 0) + (if |tail| > 3 && Is(kind, tail[3]) then 1 else 0)
  {
    if |tail| > 1 { ShortTail(tail[..|tail| - 1], kind); }
  }

  /** Every import that opened a unit of work closes it exactly once, audits
      exactly its failures, as its last call and for its own run, and stages a
      prefix of the records before anything else. */
  lemma ImportClosesOnce(sha: Sha256, w: World, expected: PreflightSummary, reader: Reader)
    requires w.start.Ok? && w.start.value.Ready?
    ensures var run := ImportRun(sha, w, expected, reader);
      && Occurrences(run.calls, Closing) == 1
      && Occurrences(run.calls, Auditing) == (if run.result.Err? then 1 else 0)
      && (run.result.Err? ==> run.calls[|run.calls| - 1] == AuditCall(w.start.value.runId, w.start.value.attemptId, CodeOf(run.result.error)))
      && StageCalls(w, reader.records) <= run.calls
      && Occurrences(run.calls, Staging) == |StageCalls(w, reader.records)|
  {
    hide Checked, StageCalls, Occurrences;
    var staged := StageCalls(w, reader.records);
    var tail := Tail(sha, w, expected, reader);
    assert ImportRun(sha, w, expected, reader).calls == staged + tail;
    OnlyStageCalls(w, reader.records, Closing);
    OnlyStageCalls(w, reader.records, Auditing);
    AllStageCalls(w, reader.records);
    OccurrencesAdd(staged, tail, Closing);
    OccurrencesAdd(staged, tail, Auditing);
    OccurrencesAdd(staged, tail, Staging);
    ShortTail(tail, Closing);
    ShortTail(tail, Auditing);
    ShortTail(tail, Staging);
  }

  lemma AllStageCalls(w: World, records: seq<Record>)
    ensures Occurrences(StageCalls(w, records), Staging) == |StageCalls(w, records)|
  {
    OnlyStageCalls(w, records, Staging);
    AllOfOneKind(StageCalls(w, records), Staging);
  }

  lemma {:induction false} AllOfOneKind(calls: seq<Event>, kind: Kind)
    requires forall i :: 0 <= i < |calls| ==> Is(kind, calls[i])
    ensures Occurrences(calls, kind) == |calls|
  {
    if calls != [] { AllOfOneKind(calls[..|calls| - 1], kind); }
  }

  /** Nothing is staged after the record that stopped the import. */
  lemma StagingStopsAtTheFirstError(w: World, records: seq<Record>, k: nat)
    requires k < |records|
    requires !FreeOfErrors(records[k]) || w.stage(k, records[k]).Err?
    ensures |StageCalls(w, records)| <= k + (if FreeOfErrors(records[k]) then 1 else 0)
  {
    hide Consumed, StageCalls;
    NoErrorsExactly(records[k]);
    OnlyStageCalls(w, records[..k], Staging);
    if Consumed(w, records[..k]).Going? {
      OneMoreRecord(w, records, k);
      HaltIsFinal(w, records, k + 1);
    } else {
      HaltIsFinal(w, records, k);
    }
  }
}
