/**
 * Normalisation of the `performance` and `weights` objects of a source record.
 *
 * Each field becomes a measurement candidate; whatever cannot be canonicalised
 * is kept as evidence and demoted, with a warning that names the field.
 */
module Measurements {
  import opened Wrappers
  import opened Text
  import Ingestion
  import opened Normalization

  // --------------------------------------------------------------- tables

  function UnitCode(raw: string): Option<string> {
    match raw
    case "KIAS" => Some("KIAS")
    case "KTAS" => Some("KTAS")
    case "KCAS" | "KT" | "KTS" | "KNOTS" => Some("KNOTS")
    case "NM" => Some("NM")
    case "FT" => Some("FT")
    case "FPM" => Some("FPM")
    case "GPH" => Some("GPH")
    case "LBS" | "LB" => Some("LBS")
    case "KG" => Some("KG")
    case "GAL" => Some("US_GAL")
    case "HP" => Some("HP")
    case "KW" => Some("KW")
    case "N" => Some("NEWTONS")
    case "LBF" => Some("LBF")
    case "HRS" | "HR" => Some("HRS")
    case "PPH" => Some("PPH")
    case _ => None
  }

  datatype Dimension = Speed | Length | ClimbRate | FuelFlow | Mass | Volume | Power | Thrust | Time

  function UnitDimension(unit: string): Option<Dimension> {
    match unit
    case "KIAS" | "KNOTS" | "KTAS" => Some(Speed)
    case "NM" | "FT" => Some(Length)
    case "FPM" => Some(ClimbRate)
    case "GPH" | "PPH" => Some(FuelFlow)
    case "LBS" | "KG" => Some(Mass)
    case "US_GAL" => Some(Volume)
    case "HP" | "KW" => Some(Power)
    case "NEWTONS" | "LBF" => Some(Thrust)
    case "HRS" => Some(Time)
    case _ => None
  }

  /** Empty for a metric that is not classified and cannot be contradicted. */
  function MetricDimensions(metric: string): seq<Dimension> {
    match metric
    case "SPEED_CRUISE_BEST" | "SPEED_STALL_CLEAN" => [Speed]
    case "RANGE_NORMAL" | "CEILING_SERVICE" | "CEILING_OEI" | "DIST_TO_GROUND_ROLL" | "DIST_TO_50FT"
       | "DIST_LDG_GROUND_ROLL" | "DIST_LDG_50FT" => [Length]
    case "CLIMB_RATE_SL" | "CLIMB_RATE_OEI" => [ClimbRate]
    case "FUEL_BURN_CRUISE" => [FuelFlow]
    case "WEIGHT_EMPTY" | "WEIGHT_MTOW" | "WEIGHT_PAYLOAD" | "WEIGHT_USEFUL_LOAD" | "FUEL_WEIGHT_MAX"
       | "WEIGHT_PAYLOAD_FULL_FUEL" => [Mass]
    case "FUEL_CAPACITY_USABLE" => [Volume, Mass]
    case _ => []
  }

  predicate UnitFitsMetric(metric: string, unit: string) {
    match UnitDimension(unit)
    case None => true
    case Some(actual) => MetricDimensions(metric) == [] || actual in MetricDimensions(metric)
  }

  function PerfCode(field: string): Option<string> {
    match field
    case "best_cruise_speed" => Some("SPEED_CRUISE_BEST")
    case "best_range_i" => Some("RANGE_NORMAL")
    case "ceiling" => Some("CEILING_SERVICE")
    case "fuel_burn" | "fuel_burn_75" => Some("FUEL_BURN_CRUISE")
    case "rate_of_climb" => Some("CLIMB_RATE_SL")
    case "rate_of_climb_1_engine_out" => Some("CLIMB_RATE_OEI")
    case "ceiling_1_engine_out" => Some("CEILING_OEI")
    case "takeoff_distance" => Some("DIST_TO_GROUND_ROLL")
    case "takeoff_distance_over_50ft_obstacle" => Some("DIST_TO_50FT")
    case "landing_distance" => Some("DIST_LDG_GROUND_ROLL")
    case "landing_distance_over_50ft_obstacle" => Some("DIST_LDG_50FT")
    case "stall_speed" => Some("SPEED_STALL_CLEAN")
    case _ => None
  }

  function WeightCode(field: string): Option<string> {
    match field
    case "empty_weight" => Some("WEIGHT_EMPTY")
    case "gross_weight" => Some("WEIGHT_MTOW")
    case "fuel_capacity" => Some("FUEL_CAPACITY_USABLE")
    case "maximum_payload" => Some("WEIGHT_PAYLOAD")
    case "useful_load" => Some("WEIGHT_USEFUL_LOAD")
    case "fuel_weight" => Some("FUEL_WEIGHT_MAX")
    case "payload_full_fuel" => Some("WEIGHT_PAYLOAD_FULL_FUEL")
    case _ => None
  }

  lemma EveryMappedUnitHasADimension(raw: string)
    requires UnitCode(raw).Some?
    ensures UnitDimension(UnitCode(raw).value).Some?
  {}

  lemma EveryMappedMetricIsClassified(field: string)
    ensures PerfCode(field).Some? ==> MetricDimensions(PerfCode(field).value) != []
    ensures WeightCode(field).Some? ==> MetricDimensions(WeightCode(field).value) != []
  {}

  // ----------------------------------------------------------- candidates

  /** A number is held by its printed text; `Composite` is an array or object. */
  datatype Value = Null | Text(text: string) | Number(printed: string) | Boolean(b: bool) | Composite(document: string)

  datatype IssueCode =
    | FieldNotScalar
    | UnmappedMeasurementField
    | MeasurementParseFailure
    | UnknownMeasurementUnit
    | MissingMeasurementUnit
    | IncompatibleMeasurementUnit
    | NegativeMeasurement

  datatype Issue = Issue(code: IssueCode, severity: Ingestion.Severity, path: string, value: Value)

  datatype Measurement = Measurement(
    field: string, metric: Option<string>, raw: string, numeric: Option<string>, rawUnit: Option<string>, unit: Option<string>)

  datatype Entry = Entry(field: string, value: Value)

  type Mapping = string -> Option<string>

  function ScalarText(value: Value): Option<string> {
    match value
    case Null => None
    case Text(text) => Sentinel(text)
    case Number(printed) => Some(printed)
    case Boolean(b) => Some(if b then "true" else "false")
    case Composite(_) => None
  }

  /** Fields of the performance object that describe the engine instead. */
  predicate IsReserved(path: string, field: string) {
    path == "performance" && (field == "horsepower" || field == "thrust")
  }

  function FieldPath(path: string, field: string): string { path + "." + field }

  predicate IsNegative(numeric: Option<string>) { numeric.Some? && HasPrefix(numeric.value, "-") }

  predicate Conflicts(metric: Option<string>, unit: Option<string>) {
    metric.Some? && unit.Some? && !UnitFitsMetric(metric.value, unit.value)
  }

  function NamedUnit(raw: string): Option<string> {
    if UnitText(raw).Some? then UnitCode(UnitText(raw).value) else None
  }

  /** What one field comes to, if it comes to anything. */
  function Candidate(path: string, mapping: Mapping, entry: Entry): Option<Measurement> {
    var text := ScalarText(entry.value);
    if IsReserved(path, entry.field) || text.None? then None
    else
      var raw := text.value;
      var metric := mapping(entry.field);
      Some(Measurement(
        entry.field, metric, raw,
        if IsNegative(Numeric(raw)) then None else Numeric(raw),
        UnitText(raw),
        if Conflicts(metric, NamedUnit(raw)) then None else NamedUnit(raw)))
  }

  /** When each warning is owed. */
  predicate IsOwed(code: IssueCode, path: string, mapping: Mapping, entry: Entry) {
    if IsReserved(path, entry.field) then false
    else match ScalarText(entry.value)
      case None => code == FieldNotScalar && entry.value.Composite?
      case Some(raw) =>
        match code
        case FieldNotScalar => false
        case UnmappedMeasurementField => mapping(entry.field).None?
        case MeasurementParseFailure => Numeric(raw).None?
        case UnknownMeasurementUnit => UnitText(raw).Some? && NamedUnit(raw).None?
        case MissingMeasurementUnit => mapping(entry.field).Some? && Numeric(raw).Some? && UnitText(raw).None?
        case IncompatibleMeasurementUnit => Conflicts(mapping(entry.field), NamedUnit(raw))
        case NegativeMeasurement => IsNegative(Numeric(raw))
  }

  function WarningIf(owed: bool, code: IssueCode, path: string, value: Value): seq<Issue> {
    if owed then [Issue(code, Ingestion.Warning, path, value)] else []
  }

  function OwedWarning(code: IssueCode, path: string, mapping: Mapping, entry: Entry): seq<Issue> {
    WarningIf(IsOwed(code, path, mapping, entry), code, FieldPath(path, entry.field), entry.value)
  }

  /** In the order in which they are pushed. */
  function Warnings(path: string, mapping: Mapping, entry: Entry): seq<Issue> {
    OwedWarning(FieldNotScalar, path, mapping, entry)
    + OwedWarning(UnmappedMeasurementField, path, mapping, entry)
    + OwedWarning(MeasurementParseFailure, path, mapping, entry)
    + OwedWarning(UnknownMeasurementUnit, path, mapping, entry)
    + OwedWarning(MissingMeasurementUnit, path, mapping, entry)
    + OwedWarning(IncompatibleMeasurementUnit, path, mapping, entry)
    + OwedWarning(NegativeMeasurement, path, mapping, entry)
  }

  function AsSeq(m: Option<Measurement>): seq<Measurement> { if m.Some? then [m.value] else [] }

  function Emitted(path: string, mapping: Mapping, entries: seq<Entry>): seq<Measurement> {
    if entries == [] then []
    else Emitted(path, mapping, entries[..|entries| - 1]) + AsSeq(Candidate(path, mapping, entries[|entries| - 1]))
  }

  function Raised(path: string, mapping: Mapping, entries: seq<Entry>): seq<Issue> {
    if entries == [] then []
    else Raised(path, mapping, entries[..|entries| - 1]) + Warnings(path, mapping, entries[|entries| - 1])
  }

  // ------------------------------------------------------------- the loop

  method ReadScalar(value: Value, path: string, issues: seq<Issue>) returns (text: Option<string>, reported: seq<Issue>)
    ensures text == ScalarText(value)
    ensures reported == issues + WarningIf(value.Composite?, FieldNotScalar, path, value)
  {
    reported := issues;
    match value
    case Null => text := None;
    case Text(raw) => text := Sentinel(raw);
    case Number(printed) => text := Some(printed);
    case Boolean(b) => text := Some(if b then "true" else "false");
    case Composite(_) =>
      reported := reported + [Issue(FieldNotScalar, Ingestion.Warning, path, value)];
      text := None;
  }

  lemma AppendedInTurn(s: seq<Issue>, a: seq<Issue>, b: seq<Issue>, c: seq<Issue>, d: seq<Issue>, e: seq<Issue>, f: seq<Issue>)
    ensures s + (a + b + c + d + e + f) == s + a + b + c + d + e + f
  {
    assert s + (a + b + c + d) == s + a + b + c + d;
    assert s + (a + b + c + d + e) == s + (a + b + c + d) + e;
    assert s + (a + b + c + d + e + f) == s + (a + b + c + d + e) + f;
  }

  /** A field whose value is not looked at owes at most one warning. */
  lemma NothingElseOwed(path: string, mapping: Mapping, entry: Entry)
    requires IsReserved(path, entry.field) || ScalarText(entry.value).None?
    ensures Warnings(path, mapping, entry) ==
      WarningIf(!IsReserved(path, entry.field) && entry.value.Composite?, FieldNotScalar, FieldPath(path, entry.field), entry.value)
  {
    hide IsReserved, Sentinel, FieldPath;
    var w := OwedWarning(FieldNotScalar, path, mapping, entry);
    assert forall code: IssueCode :: code != FieldNotScalar ==> OwedWarning(code, path, mapping, entry) == [];
    assert w + [] == w;
  }

  /** The body of the loop: the warnings are pushed one at a time, and the unit
      and the number are demoted after the others have been looked at. */
  method Normalize(path: string, mapping: Mapping, entry: Entry, issues: seq<Issue>)
    returns (candidate: Option<Measurement>, reported: seq<Issue>)
    ensures candidate == Candidate(path, mapping, entry)
    ensures reported == issues + Warnings(path, mapping, entry)
  {
    hide Sentinel, Numeric, UnitText, UnitCode, UnitFitsMetric, IsNumericOf, HasPrefix, Warnings, IsReserved;
    var value := entry.value;
    reported := issues;
    if IsReserved(path, entry.field) {
      NothingElseOwed(path, mapping, entry);
      return None, reported;
    }
    var fieldPath := FieldPath(path, entry.field);
    var text;
    text, reported := ReadScalar(value, fieldPath, reported);
    if text.None? {
      NothingElseOwed(path, mapping, entry);
      return None, reported;
    }
    assert reported == issues;
    var raw := text.value;
    var numeric := ParseNumeric(raw);
    var rawUnit := UnitText(raw);
    var unit := if rawUnit.Some? then UnitCode(rawUnit.value) else None;
    var metric := mapping(entry.field);
    ghost var owed := (code: IssueCode) => OwedWarning(code, path, mapping, entry);
    if metric.None? { reported := reported + [Issue(UnmappedMeasurementField, Ingestion.Warning, fieldPath, value)]; }
    assert reported == issues + owed(UnmappedMeasurementField);
    ghost var r1 := reported;
    if numeric.None? { reported := reported + [Issue(MeasurementParseFailure, Ingestion.Warning, fieldPath, value)]; }
    assert reported == r1 + owed(MeasurementParseFailure);
    ghost var r2 := reported;
    if rawUnit.Some? && unit.None? { reported := reported + [Issue(UnknownMeasurementUnit, Ingestion.Warning, fieldPath, value)]; }
    assert reported == r2 + owed(UnknownMeasurementUnit);
    ghost var r3 := reported;
    if metric.Some? && numeric.Some? && rawUnit.None? {
      reported := reported + [Issue(MissingMeasurementUnit, Ingestion.Warning, fieldPath, value)];
    }
    assert reported == r3 + owed(MissingMeasurementUnit);
    ghost var r4 := reported;
    if metric.Some? && unit.Some? && !UnitFitsMetric(metric.value, unit.value) {
      reported := reported + [Issue(IncompatibleMeasurementUnit, Ingestion.Warning, fieldPath, value)];
      unit := None;
    }
    assert reported == r4 + owed(IncompatibleMeasurementUnit);
    ghost var r5 := reported;
    if numeric.Some? && HasPrefix(numeric.value, "-") {
      reported := reported + [Issue(NegativeMeasurement, Ingestion.Warning, fieldPath, value)];
      numeric := None;
    }
    assert reported == r5 + owed(NegativeMeasurement);
    candidate := Some(Measurement(entry.field, metric, raw, numeric, rawUnit, unit));
    WarningsInTurn(path, mapping, entry, issues);
  }

  lemma WarningsInTurn(path: string, mapping: Mapping, entry: Entry, issues: seq<Issue>)
    requires !IsReserved(path, entry.field) && ScalarText(entry.value).Some?
    ensures issues + Warnings(path, mapping, entry) == issues
      + OwedWarning(UnmappedMeasurementField, path, mapping, entry)
      + OwedWarning(MeasurementParseFailure, path, mapping, entry)
      + OwedWarning(UnknownMeasurementUnit, path, mapping, entry)
      + OwedWarning(MissingMeasurementUnit, path, mapping, entry)
      + OwedWarning(IncompatibleMeasurementUnit, path, mapping, entry)
      + OwedWarning(NegativeMeasurement, path, mapping, entry)
  {
    var first := OwedWarning(UnmappedMeasurementField, path, mapping, entry);
    assert OwedWarning(FieldNotScalar, path, mapping, entry) == [] && [] + first == first;
    hide OwedWarning;
    AppendedInTurn(issues, first,
      OwedWarning(MeasurementParseFailure, path, mapping, entry),
      OwedWarning(UnknownMeasurementUnit, path, mapping, entry),
      OwedWarning(MissingMeasurementUnit, path, mapping, entry),
      OwedWarning(IncompatibleMeasurementUnit, path, mapping, entry),
      OwedWarning(NegativeMeasurement, path, mapping, entry));
  }

  /** `measurements`: an absent object is an empty one. */
  method NormalizeAll(entries: Option<seq<Entry>>, path: string, mapping: Mapping, issues: seq<Issue>)
    returns (items: seq<Measurement>, reported: seq<Issue>)
    ensures var all := if entries.Some? then entries.value else [];
      items == Emitted(path, mapping, all) && reported == issues + Raised(path, mapping, all)
  {
    hide Candidate, Warnings;
    items, reported := [], issues;
    if entries.None? { return; }
    var all := entries.value;
    var i := 0;
    while i < |all|
      invariant i <= |all|
      invariant items == Emitted(path, mapping, all[..i]) && reported == issues + Raised(path, mapping, all[..i])
    {
      assert all[..i + 1][..i] == all[..i];
      var candidate;
      candidate, reported := Normalize(path, mapping, all[i], reported);
      if candidate.Some? { items := items + [candidate.value]; }
      i := i + 1;
    }
    assert all[..i] == all;
  }

  // ----------------------------------------------------------- properties

  lemma OwedWarningIs(code: IssueCode, path: string, mapping: Mapping, entry: Entry, issue: Issue)
    ensures issue in OwedWarning(code, path, mapping, entry) <==>
      issue == Issue(code, Ingestion.Warning, FieldPath(path, entry.field), entry.value) && IsOwed(code, path, mapping, entry)
  {}

  lemma WarningsAreOwed(path: string, mapping: Mapping, entry: Entry, issue: Issue)
    ensures issue in Warnings(path, mapping, entry) <==>
      issue == Issue(issue.code, Ingestion.Warning, FieldPath(path, entry.field), entry.value) && IsOwed(issue.code, path, mapping, entry)
  {
    hide IsOwed, OwedWarning, FieldPath;
    forall code: IssueCode
      ensures issue in OwedWarning(code, path, mapping, entry) <==>
        issue == Issue(code, Ingestion.Warning, FieldPath(path, entry.field), entry.value) && IsOwed(code, path, mapping, entry)
    {
      OwedWarningIs(code, path, mapping, entry, issue);
    }
    match issue.code
    case FieldNotScalar => case UnmappedMeasurementField => case MeasurementParseFailure => case UnknownMeasurementUnit =>
    case MissingMeasurementUnit => case IncompatibleMeasurementUnit => case NegativeMeasurement =>
  }

  lemma {:induction false} EmittedComesFromAField(path: string, mapping: Mapping, entries: seq<Entry>, m: Measurement)
    ensures m in Emitted(path, mapping, entries) <==> exists e :: e in entries && Candidate(path, mapping, e) == Some(m)
  {
    hide Candidate;
    if entries != [] { EmittedComesFromAField(path, mapping, entries[..|entries| - 1], m); }
  }

  lemma {:induction false} RaisedComesFromAField(path: string, mapping: Mapping, entries: seq<Entry>, issue: Issue)
    ensures issue in Raised(path, mapping, entries) <==> exists e :: e in entries && issue in Warnings(path, mapping, e)
  {
    hide Warnings;
    if entries != [] { RaisedComesFromAField(path, mapping, entries[..|entries| - 1], issue); }
  }

  /** A JSON object has each key once. */
  predicate DistinctFields(entries: seq<Entry>) {
    forall a, b :: a in entries && b in entries && a.field == b.field ==> a == b
  }

  ghost predicate WarnedAbout(issues: seq<Issue>, code: IssueCode, fieldPath: string) {
    exists issue :: issue in issues && issue.path == fieldPath && issue.code == code
  }

  /** A run warns about a field exactly what that field is owed. */
  lemma WarningsFollowTheField(path: string, mapping: Mapping, entries: seq<Entry>, e: Entry, code: IssueCode)
    requires DistinctFields(entries) && e in entries
    ensures WarnedAbout(Raised(path, mapping, entries), code, FieldPath(path, e.field)) <==> IsOwed(code, path, mapping, e)
  {
    hide Raised, Warnings, IsOwed;
    var raised := Raised(path, mapping, entries);
    var owed := Issue(code, Ingestion.Warning, FieldPath(path, e.field), e.value);
    RaisedComesFromAField(path, mapping, entries, owed);
    WarningsAreOwed(path, mapping, e, owed);
    forall issue | issue in raised && issue.path == FieldPath(path, e.field)
      ensures IsOwed(issue.code, path, mapping, e)
    {
      RaisedComesFromAField(path, mapping, entries, issue);
      var other :| other in entries && issue in Warnings(path, mapping, other);
      WarningsAreOwed(path, mapping, other, issue);
      assert issue.path[|path| + 1..] == other.field && issue.path[|path| + 1..] == e.field;
    }
  }

  /** No candidate carries a number that is ill-formed or negative, or a unit
      that contradicts its metric; and the text it came from is kept. */
  lemma CandidatesAreSafe(path: string, mapping: Mapping, entries: seq<Entry>, m: Measurement)
    requires m in Emitted(path, mapping, entries)
    ensures m.numeric.Some? ==> IsDecimal(m.numeric.value) && !HasPrefix(m.numeric.value, "-") && Numeric(m.numeric.value) == m.numeric
    ensures m.metric.Some? && m.unit.Some? ==> UnitFitsMetric(m.metric.value, m.unit.value)
    ensures exists e :: e in entries && e.field == m.field && ScalarText(e.value) == Some(m.raw)
  {
    hide Numeric, UnitFitsMetric, IsDecimal;
    EmittedComesFromAField(path, mapping, entries, m);
    NumericIsTheMaximalDecimal(m.raw);
    if Numeric(m.raw).Some? { NumericIsIdempotent(m.raw); }
  }

  /** With either of the two real tables the compatibility is never vacuous: the
      unit has a dimension and it is one the metric accepts. */
  lemma MappedUnitMeasuresItsMetric(path: string, mapping: Mapping, entries: seq<Entry>, m: Measurement)
    requires forall f :: mapping(f) == PerfCode(f) || mapping(f) == WeightCode(f)
    requires m in Emitted(path, mapping, entries) && m.metric.Some? && m.unit.Some?
    ensures UnitDimension(m.unit.value).Some? && UnitDimension(m.unit.value).value in MetricDimensions(m.metric.value)
  {
    hide UnitCode, UnitDimension, PerfCode, WeightCode, MetricDimensions;
    CandidatesAreSafe(path, mapping, entries, m);
    EmittedComesFromAField(path, mapping, entries, m);
    EveryMappedMetricIsClassified(m.field);
    EveryMappedUnitHasADimension(UnitText(m.raw).value);
  }

  lemma WhatIsOwedIsLacking(path: string, mapping: Mapping, e: Entry)
    requires Candidate(path, mapping, e).Some?
    ensures var m := Candidate(path, mapping, e).value;
      && !IsOwed(FieldNotScalar, path, mapping, e)
      && (m.metric.None? <==> IsOwed(UnmappedMeasurementField, path, mapping, e))
      && (m.numeric.None? <==> IsOwed(MeasurementParseFailure, path, mapping, e) || IsOwed(NegativeMeasurement, path, mapping, e))
      && (m.rawUnit.Some? && m.unit.None? <==> IsOwed(UnknownMeasurementUnit, path, mapping, e) || IsOwed(IncompatibleMeasurementUnit, path, mapping, e))
      && (m.metric.Some? && m.rawUnit.None? && !IsOwed(MeasurementParseFailure, path, mapping, e) <==> IsOwed(MissingMeasurementUnit, path, mapping, e))
      && ((exists code :: IsOwed(code, path, mapping, e)) <==> m.metric.None? || m.numeric.None? || m.unit.None?)
  {
    hide Numeric, UnitText, UnitCode, UnitFitsMetric, Sentinel, IsReserved, HasPrefix;
    var m := Candidate(path, mapping, e).value;
    if code :| IsOwed(code, path, mapping, e) { assert m.metric.None? || m.numeric.None? || m.unit.None?; }
    if m.unit.None? && m.metric.Some? && m.numeric.Some? {
      assert IsOwed(if m.rawUnit.None? then MissingMeasurementUnit else if NamedUnit(m.raw).None? then UnknownMeasurementUnit
        else IncompatibleMeasurementUnit, path, mapping, e);
    }
  }

  /** Whatever a candidate lacks, some warning at its field says why; and a
      warning at its field means that it lacks something. */
  lemma DemotionsAreWarned(path: string, mapping: Mapping, entries: seq<Entry>, m: Measurement)
    requires DistinctFields(entries) && m in Emitted(path, mapping, entries)
    ensures var raised := Raised(path, mapping, entries);
      var at := FieldPath(path, m.field);
      && (m.metric.None? <==> WarnedAbout(raised, UnmappedMeasurementField, at))
      && (m.numeric.None? <==> WarnedAbout(raised, MeasurementParseFailure, at) || WarnedAbout(raised, NegativeMeasurement, at))
      && (m.rawUnit.Some? && m.unit.None? <==>
            WarnedAbout(raised, UnknownMeasurementUnit, at) || WarnedAbout(raised, IncompatibleMeasurementUnit, at))
      && (m.metric.Some? && m.rawUnit.None? && !WarnedAbout(raised, MeasurementParseFailure, at) <==>
            WarnedAbout(raised, MissingMeasurementUnit, at))
      && ((exists issue :: issue in raised && issue.path == at) <==> m.metric.None? || m.numeric.None? || m.unit.None?)
  {
    hide Raised, Emitted, IsOwed, Candidate, FieldPath, WarnedAbout;
    var raised := Raised(path, mapping, entries);
    EmittedComesFromAField(path, mapping, entries, m);
    var e :| e in entries && Candidate(path, mapping, e) == Some(m);
    var at := FieldPath(path, m.field);
    assert m.field == e.field by { CandidateIsOfItsField(path, mapping, e); }
    forall code: IssueCode ensures WarnedAbout(raised, code, at) <==> IsOwed(code, path, mapping, e) {
      WarningsFollowTheField(path, mapping, entries, e, code);
    }
    WhatIsOwedIsLacking(path, mapping, e);
    AnyWarningHasACode(raised, at);
  }

  lemma CandidateIsOfItsField(path: string, mapping: Mapping, e: Entry)
    ensures Candidate(path, mapping, e).Some? ==> Candidate(path, mapping, e).value.field == e.field
  {}

  lemma AnyWarningHasACode(issues: seq<Issue>, at: string)
    ensures (exists issue :: issue in issues && issue.path == at) <==> exists code :: WarnedAbout(issues, code, at)
  {
    if issue :| issue in issues && issue.path == at { assert WarnedAbout(issues, issue.code, at); }
  }

  /** A field comes to nothing exactly when it is read elsewhere or its value
      says nothing, and that is reported exactly for a composite value. */
  lemma DroppedFieldsExactly(path: string, mapping: Mapping, entries: seq<Entry>, e: Entry)
    requires DistinctFields(entries) && e in entries
    ensures (forall m :: m in Emitted(path, mapping, entries) ==> m.field != e.field) <==>
      IsReserved(path, e.field) || e.value.Null? || e.value.Composite? || (e.value.Text? && SaysNothing(Trim(e.value.text)))
    ensures WarnedAbout(Raised(path, mapping, entries), FieldNotScalar, FieldPath(path, e.field)) <==>
      !IsReserved(path, e.field) && e.value.Composite?
  {
    hide IsReserved, SaysNothing, Numeric, UnitText, UnitFitsMetric, UnitCode, Raised, Emitted, FieldPath;
    WarningsFollowTheField(path, mapping, entries, e, FieldNotScalar);
    var c := Candidate(path, mapping, e);
    if c.Some? {
      EmittedComesFromAField(path, mapping, entries, c.value);
    } else {
      forall m | m in Emitted(path, mapping, entries) ensures m.field != e.field {
        EmittedComesFromAField(path, mapping, entries, m);
      }
    }
  }
}
