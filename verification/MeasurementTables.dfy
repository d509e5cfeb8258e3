/**
 * The vocabularies of the measurement loop, entry by entry, and what exactly a
 * field becomes.
 */
module MeasurementTables {
  import opened Wrappers
  import opened Text
  import opened Normalization
  import opened Measurements
  import Ingestion

  // ---------------------------------------------------------------- tables

  lemma UnitCodesAre(raw: string)
    ensures UnitCode("KIAS") == Some("KIAS") && UnitCode("KTAS") == Some("KTAS")
    ensures UnitCode("KCAS") == UnitCode("KT") == UnitCode("KTS") == UnitCode("KNOTS") == Some("KNOTS")
    ensures UnitCode("NM") == Some("NM") && UnitCode("FT") == Some("FT") && UnitCode("FPM") == Some("FPM")
    ensures UnitCode("GPH") == Some("GPH") && UnitCode("PPH") == Some("PPH")
    ensures UnitCode("LBS") == UnitCode("LB") == Some("LBS") && UnitCode("KG") == Some("KG") && UnitCode("GAL") == Some("US_GAL")
    ensures UnitCode("HP") == Some("HP") && UnitCode("KW") == Some("KW")
    ensures UnitCode("N") == Some("NEWTONS") && UnitCode("LBF") == Some("LBF")
    ensures UnitCode("HRS") == UnitCode("HR") == Some("HRS")
    ensures UnitCode(raw).Some? ==> raw in {
      "KIAS", "KTAS", "KCAS", "KT", "KTS", "KNOTS", "NM", "FT", "FPM", "GPH", "PPH", "LBS", "LB", "KG", "GAL", "HP", "KW", "N", "LBF", "HRS", "HR" }
  {}

  lemma UnitDimensionsAre(unit: string)
    ensures UnitDimension("KIAS") == UnitDimension("KNOTS") == UnitDimension("KTAS") == Some(Speed)
    ensures UnitDimension("NM") == UnitDimension("FT") == Some(Length)
    ensures UnitDimension("FPM") == Some(ClimbRate)
    ensures UnitDimension("GPH") == UnitDimension("PPH") == Some(FuelFlow)
    ensures UnitDimension("LBS") == UnitDimension("KG") == Some(Mass)
    ensures UnitDimension("US_GAL") == Some(Volume)
    ensures UnitDimension("HP") == UnitDimension("KW") == Some(Power)
    ensures UnitDimension("NEWTONS") == UnitDimension("LBF") == Some(Thrust)
    ensures UnitDimension("HRS") == Some(Time)
    ensures UnitDimension(unit).Some? ==> unit in {
      "KIAS", "KNOTS", "KTAS", "NM", "FT", "FPM", "GPH", "PPH", "LBS", "KG", "US_GAL", "HP", "KW", "NEWTONS", "LBF", "HRS" }
  {}

  lemma PerformanceMetricsAre(field: string)
    ensures PerfCode("best_cruise_speed") == Some("SPEED_CRUISE_BEST") && PerfCode("best_range_i") == Some("RANGE_NORMAL")
    ensures PerfCode("ceiling") == Some("CEILING_SERVICE") && PerfCode("fuel_burn") == PerfCode("fuel_burn_75") == Some("FUEL_BURN_CRUISE")
    ensures PerfCode("rate_of_climb") == Some("CLIMB_RATE_SL") && PerfCode("rate_of_climb_1_engine_out") == Some("CLIMB_RATE_OEI")
    ensures PerfCode("ceiling_1_engine_out") == Some("CEILING_OEI") && PerfCode("stall_speed") == Some("SPEED_STALL_CLEAN")
    ensures PerfCode("takeoff_distance") == Some("DIST_TO_GROUND_ROLL")
    ensures PerfCode("takeoff_distance_over_50ft_obstacle") == Some("DIST_TO_50FT")
    ensures PerfCode("landing_distance") == Some("DIST_LDG_GROUND_ROLL")
    ensures PerfCode("landing_distance_over_50ft_obstacle") == Some("DIST_LDG_50FT")
    ensures PerfCode(field).Some? ==> field in {
      "best_cruise_speed", "best_range_i", "ceiling", "fuel_burn", "fuel_burn_75", "rate_of_climb", "rate_of_climb_1_engine_out",
      "ceiling_1_engine_out", "takeoff_distance", "takeoff_distance_over_50ft_obstacle", "landing_distance",
      "landing_distance_over_50ft_obstacle", "stall_speed" }
  {}

  lemma WeightMetricsAre(field: string)
    ensures WeightCode("empty_weight") == Some("WEIGHT_EMPTY") && WeightCode("gross_weight") == Some("WEIGHT_MTOW")
    ensures WeightCode("fuel_capacity") == Some("FUEL_CAPACITY_USABLE") && WeightCode("maximum_payload") == Some("WEIGHT_PAYLOAD")
    ensures WeightCode("useful_load") == Some("WEIGHT_USEFUL_LOAD") && WeightCode("fuel_weight") == Some("FUEL_WEIGHT_MAX")
    ensures WeightCode("payload_full_fuel") == Some("WEIGHT_PAYLOAD_FULL_FUEL")
    ensures WeightCode(field).Some? ==> field in {
      "empty_weight", "gross_weight", "fuel_capacity", "maximum_payload", "useful_load", "fuel_weight", "payload_full_fuel" }
  {}

  lemma SpeedAndLengthMetricsAre()
    ensures MetricDimensions("SPEED_CRUISE_BEST") == MetricDimensions("SPEED_STALL_CLEAN") == [Speed]
    ensures MetricDimensions("RANGE_NORMAL") == MetricDimensions("CEILING_SERVICE") == MetricDimensions("CEILING_OEI") == [Length]
    ensures MetricDimensions("DIST_TO_GROUND_ROLL") == MetricDimensions("DIST_TO_50FT") == [Length]
    ensures MetricDimensions("DIST_LDG_GROUND_ROLL") == MetricDimensions("DIST_LDG_50FT") == [Length]
    ensures MetricDimensions("CLIMB_RATE_SL") == MetricDimensions("CLIMB_RATE_OEI") == [ClimbRate]
    ensures MetricDimensions("FUEL_BURN_CRUISE") == [FuelFlow]
  {}

  lemma WeightAndVolumeMetricsAre()
    ensures MetricDimensions("WEIGHT_EMPTY") == MetricDimensions("WEIGHT_MTOW") == MetricDimensions("WEIGHT_PAYLOAD") == [Mass]
    ensures MetricDimensions("WEIGHT_USEFUL_LOAD") == MetricDimensions("FUEL_WEIGHT_MAX") == MetricDimensions("WEIGHT_PAYLOAD_FULL_FUEL") == [Mass]
    ensures MetricDimensions("FUEL_CAPACITY_USABLE") == [Volume, Mass]
  {}

  // ------------------------------------------------------ what is read

  /** The letters of a unit change case, and nothing else does. */
  lemma LettersChangeCase(s: string, i: nat)
    requires i < |s|
    ensures |Upper(s)| == |Lower(s)| == |s|
    ensures Upper(s)[i] as int == if 97 <= s[i] as int <= 122 then s[i] as int - 32 else s[i] as int
    ensures Lower(s)[i] as int == if 65 <= s[i] as int <= 90 then s[i] as int + 32 else s[i] as int
  {}

  /** The text of a value: a string without its outer space unless it says
      nothing, a number as printed, a boolean as a word. */
  lemma ScalarsAreReadExactly(value: Value, text: string)
    ensures ScalarText(value) == Some(text) <==>
      || (value.Text? && text == Trim(value.text) && !SaysNothing(text))
      || (value.Number? && text == value.printed)
      || (value.Boolean? && text == if value.b then "true" else "false")
  {}

  /** Two performance fields describe the engine instead. */
  lemma ReservedFieldsAre(path: string, field: string)
    ensures IsReserved(path, field) <==> path == "performance" && field in { "horsepower", "thrust" }
  {}

  // ------------------------------------------------ what a field becomes

  /** A candidate is its field, read: the metric its name maps to, the text, the
      number unless it is negative, the unit as written, and the unit it names
      unless that one cannot measure the metric. */
  predicate IsReadingOf(m: Measurement, e: Entry, mapping: Mapping) {
    && m.field == e.field && m.metric == mapping(e.field)
    && ScalarText(e.value) == Some(m.raw)
    && m.rawUnit == UnitText(m.raw)
    && (Numeric(m.raw).None? ==> m.numeric == None)
    && (Numeric(m.raw).Some? ==> m.numeric == if HasPrefix(Numeric(m.raw).value, "-") then None else Numeric(m.raw))
    && (m.rawUnit.None? ==> m.unit == None)
    && (m.rawUnit.Some? ==>
          var named := UnitCode(m.rawUnit.value);
          var misfit := named.Some? && m.metric.Some? && !UnitFitsMetric(m.metric.value, named.value);
          m.unit == if misfit then None else named)
  }

  lemma CandidateIsTheReading(path: string, mapping: Mapping, e: Entry, m: Measurement)
    ensures Candidate(path, mapping, e) == Some(m) <==> !IsReserved(path, e.field) && IsReadingOf(m, e, mapping)
  {
    hide IsReserved, ScalarText, Numeric, UnitText, UnitCode, UnitFitsMetric, HasPrefix;
  }

  lemma YieldsExactly(path: string, mapping: Mapping, e: Entry)
    ensures Candidate(path, mapping, e).Some? <==> !IsReserved(path, e.field) && ScalarText(e.value).Some?
  {
    hide IsReserved, ScalarText, Numeric, UnitText, UnitCode, UnitFitsMetric, HasPrefix;
  }

  /** `items` are the candidates of exactly the entries that yield one, at the
      increasing places `at`. */
  predicate AreCandidatesAt(path: string, mapping: Mapping, entries: seq<Entry>, items: seq<Measurement>, at: seq<int>) {
    && |at| == |items|
    && (forall k :: 0 <= k < |at| ==> 0 <= at[k] < |entries|)
    && (forall k :: 0 <= k < |at| ==> Candidate(path, mapping, entries[at[k]]) == Some(items[k]))
    && (forall j, k :: 0 <= j < k < |at| ==> at[j] < at[k])
    && (forall i :: 0 <= i < |entries| ==> (i in at <==> Candidate(path, mapping, entries[i]).Some?))
  }

  lemma OneMoreYields(path: string, mapping: Mapping, entries: seq<Entry>, items: seq<Measurement>, at: seq<int>, m: Measurement)
    requires entries != [] && AreCandidatesAt(path, mapping, entries[..|entries| - 1], items, at)
    requires Candidate(path, mapping, entries[|entries| - 1]) == Some(m)
    ensures AreCandidatesAt(path, mapping, entries, items + [m], at + [|entries| - 1])
  {
    hide Candidate;
    var n := |entries| - 1;
    var more := at + [n];
    assert forall i :: 0 <= i < n ==> entries[..n][i] == entries[i];
    forall i | 0 <= i < |entries| ensures i in more <==> Candidate(path, mapping, entries[i]).Some? {
      if i < n { assert i in more <==> i in at; }
    }
  }

  lemma OneMoreYieldsNothing(path: string, mapping: Mapping, entries: seq<Entry>, items: seq<Measurement>, at: seq<int>)
    requires entries != [] && AreCandidatesAt(path, mapping, entries[..|entries| - 1], items, at)
    requires Candidate(path, mapping, entries[|entries| - 1]).None?
    ensures AreCandidatesAt(path, mapping, entries, items, at)
  {
    hide Candidate;
    var n := |entries| - 1;
    assert forall i :: 0 <= i < n ==> entries[..n][i] == entries[i];
    assert n !in at;
  }

  /** The candidates come in the order of their fields, one for each that yields. */
  lemma {:induction false} CandidatesComeInOrder(path: string, mapping: Mapping, entries: seq<Entry>) returns (at: seq<int>)
    ensures AreCandidatesAt(path, mapping, entries, Emitted(path, mapping, entries), at)
  {
    hide Candidate;
    if entries == [] {
      at := [];
    } else {
      hide AreCandidatesAt;
      var n := |entries| - 1;
      at := CandidatesComeInOrder(path, mapping, entries[..n]);
      var items, c := Emitted(path, mapping, entries[..n]), Candidate(path, mapping, entries[n]);
      if c.Some? {
        OneMoreYields(path, mapping, entries, items, at, c.value);
        at := at + [n];
      } else {
        OneMoreYieldsNothing(path, mapping, entries, items, at);
        assert items + [] == items;
      }
    }
  }

  // -------------------------------------------------------------- warnings

  /** The order in which the loop looks for trouble. */
  function Place(code: IssueCode): nat {
    match code
    case FieldNotScalar => 0
    case UnmappedMeasurementField => 1
    case MeasurementParseFailure => 2
    case UnknownMeasurementUnit => 3
    case MissingMeasurementUnit => 4
    case IncompatibleMeasurementUnit => 5
    case NegativeMeasurement => 6
  }

  /** Every issue is a warning at its field, with the value it is about. */
  lemma IssuesAreOfTheirField(path: string, mapping: Mapping, entries: seq<Entry>, issue: Issue)
    requires issue in Raised(path, mapping, entries)
    ensures issue.severity == Ingestion.Warning
    ensures exists e :: e in entries && issue.path == path + "." + e.field && issue.value == e.value && IsOwed(issue.code, path, mapping, e)
  {
    RaisedComesFromAField(path, mapping, entries, issue);
    var e :| e in entries && issue in Warnings(path, mapping, e);
    WarningsAreOwed(path, mapping, e, issue);
  }

  predicate InPlaces(issues: seq<Issue>, from: nat, to: nat) {
    && (forall i :: 0 <= i < |issues| ==> from <= Place(issues[i].code) < to)
    && (forall i, j :: 0 <= i < j < |issues| ==> Place(issues[i].code) < Place(issues[j].code))
  }

  lemma InPlacesAdd(a: seq<Issue>, b: seq<Issue>, from: nat, mid: nat, to: nat)
    requires from <= mid <= to && InPlaces(a, from, mid) && InPlaces(b, mid, to)
    ensures InPlaces(a + b, from, to)
  {}

  lemma OneInPlace(code: IssueCode, path: string, mapping: Mapping, e: Entry)
    ensures InPlaces(OwedWarning(code, path, mapping, e), Place(code), Place(code) + 1)
  {
    hide IsOwed;
  }

  /** The warnings of one field come in that order, each once. */
  lemma WarningsComeInOrder(path: string, mapping: Mapping, e: Entry)
    ensures InPlaces(Warnings(path, mapping, e), 0, 7)
  {
    hide OwedWarning, InPlaces;
    var w := (code: IssueCode) => OwedWarning(code, path, mapping, e);
    OneInPlace(FieldNotScalar, path, mapping, e);
    OneInPlace(UnmappedMeasurementField, path, mapping, e);
    OneInPlace(MeasurementParseFailure, path, mapping, e);
    OneInPlace(UnknownMeasurementUnit, path, mapping, e);
    OneInPlace(MissingMeasurementUnit, path, mapping, e);
    OneInPlace(IncompatibleMeasurementUnit, path, mapping, e);
    OneInPlace(NegativeMeasurement, path, mapping, e);
    var two := w(FieldNotScalar) + w(UnmappedMeasurementField);
    var three := two + w(MeasurementParseFailure);
    var four := three + w(UnknownMeasurementUnit);
    var five := four + w(MissingMeasurementUnit);
    var six := five + w(IncompatibleMeasurementUnit);
    InPlacesAdd(w(FieldNotScalar), w(UnmappedMeasurementField), 0, 1, 2);
    InPlacesAdd(two, w(MeasurementParseFailure), 0, 2, 3);
    InPlacesAdd(three, w(UnknownMeasurementUnit), 0, 3, 4);
    InPlacesAdd(four, w(MissingMeasurementUnit), 0, 4, 5);
    InPlacesAdd(five, w(IncompatibleMeasurementUnit), 0, 5, 6);
    InPlacesAdd(six, w(NegativeMeasurement), 0, 6, 7);
  }

  /** When each warning is given, clause by clause. */
  lemma WarningsAreGivenExactly(path: string, mapping: Mapping, e: Entry)
    requires !IsReserved(path, e.field)
    ensures IsOwed(FieldNotScalar, path, mapping, e) <==> e.value.Composite?
    ensures forall code :: ScalarText(e.value).None? && code != FieldNotScalar ==> !IsOwed(code, path, mapping, e)
    ensures ScalarText(e.value).Some? ==>
      var raw := ScalarText(e.value).value;
      var metric, number, unit := mapping(e.field), Numeric(raw), UnitText(raw);
      && (IsOwed(UnmappedMeasurementField, path, mapping, e) <==> metric.None?)
      && (IsOwed(MeasurementParseFailure, path, mapping, e) <==> number.None?)
      && (IsOwed(UnknownMeasurementUnit, path, mapping, e) <==> unit.Some? && UnitCode(unit.value).None?)
      && (IsOwed(MissingMeasurementUnit, path, mapping, e) <==> metric.Some? && number.Some? && unit.None?)
      && (IsOwed(IncompatibleMeasurementUnit, path, mapping, e) <==>
            metric.Some? && unit.Some? && UnitCode(unit.value).Some? && !UnitFitsMetric(metric.value, UnitCode(unit.value).value))
      && (IsOwed(NegativeMeasurement, path, mapping, e) <==> number.Some? && HasPrefix(number.value, "-"))
  {
    hide Numeric, UnitText, UnitCode, UnitFitsMetric, Sentinel, HasPrefix, IsReserved;
  }

  /** A unit fits unless both are classified and the dimensions differ. */
  lemma UnitsFitExactly(metric: string, unit: string)
    ensures UnitFitsMetric(metric, unit) <==>
      UnitDimension(unit).None? || MetricDimensions(metric) == [] || UnitDimension(unit).value in MetricDimensions(metric)
  {
    hide UnitDimension, MetricDimensions;
  }
}
