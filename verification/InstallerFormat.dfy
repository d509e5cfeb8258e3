/**
 * The installer, line by line: which lines include a migration or record a
 * version, what the versions look like, and what each violation says.
 */
module InstallerFormat {
  import opened Wrappers
  import opened Text
  import opened Installer

  // ----------------------------------------------------------------- lines

  lemma StrippedExactly(line: string, prefix: string, rest: string)
    requires prefix != "" && prefix[0] != '-'
    ensures Stripped(line, prefix) == Some(rest) <==> Trim(line) == prefix + rest
  {
    var text := Trim(line);
    if HasPrefix(text, prefix) {
      PrefixSharesTheFirst(text, prefix);
      PrefixSharesTheFirst(text, "--");
      assert text == prefix + text[|prefix|..];
    }
    if text == prefix + rest {
      assert text[..|prefix|] == prefix && text[|prefix|..] == rest;
      PrefixSharesTheFirst(text, "--");
    }
  }

  /** A line includes a file exactly when, trimmed, it is the directive and the
      file; commented lines are none. */
  lemma {:induction false} DirectivesExactly(lines: seq<string>, line: nat, file: string)
    ensures Directive(line, file) in Directives(lines) <==>
      line < |lines| && Trim(lines[line]) == "\\ir migrations/" + file
  {
    hide Stripped, Trim;
    if lines != [] {
      var n := |lines| - 1;
      DirectivesExactly(lines[..n], line, file);
      StrippedExactly(lines[n], DIRECTIVE, file);
      DirectiveLines(lines[..n]);
    }
  }

  lemma {:induction false} DirectiveLines(lines: seq<string>)
    ensures forall d :: d in Directives(lines) ==> d.line < |lines|
  {
    if lines != [] { DirectiveLines(lines[..|lines| - 1]); }
  }

  /** A line records a version exactly when, trimmed, it is the insert, the
      version, a quote and anything. */
  predicate Records(line: string, version: string) {
    '\'' !in version && HasPrefix(Trim(line), "INSERT " + "INTO public.aircraft_schema_migrations(version) VALUES ('" + version + "'")
  }

  /** The version a line records, if it does. */
  function VersionIn(line: string): Option<string> {
    match Stripped(line, LEDGER_INSERT_PREFIX)
    case None => None
    case Some(rest) => if SplitOnce(rest, "'").Some? then Some(SplitOnce(rest, "'").value.0) else None
  }

  lemma RecordsExactly(line: string, version: string)
    ensures VersionIn(line) == Some(version) <==> Records(line, version)
  {
    hide Trim, Stripped;
    var text := Trim(line);
    assert LEDGER_INSERT_PREFIX[0] == 'I';
    if Records(line, version) {
      var start := LEDGER_INSERT_PREFIX + version + "'";
      var rest := text[|start|..];
      assert text == start + rest == LEDGER_INSERT_PREFIX + (version + ("'" + rest));
      StrippedExactly(line, LEDGER_INSERT_PREFIX, version + ("'" + rest));
      QuoteIsFirst(version, rest);
    }
    if VersionIn(line) == Some(version) {
      var rest := Stripped(line, LEDGER_INSERT_PREFIX).value;
      StrippedExactly(line, LEDGER_INSERT_PREFIX, rest);
      QuoteWasFirst(rest);
      var after := SplitOnce(rest, "'").value.1;
      hide SplitOnce;
      assert text == LEDGER_INSERT_PREFIX + (version + "'" + after);
      assert text[..|LEDGER_INSERT_PREFIX| + |version| + 1] == LEDGER_INSERT_PREFIX + version + "'";
    }
  }

  lemma QuoteIsFirst(version: string, rest: string)
    requires '\'' !in version
    ensures SplitOnce(version + ("'" + rest), "'") == Some((version, rest))
  {
    var s := version + ("'" + rest);
    forall j | 0 <= j < |version| ensures !OccursAt(s, "'", j) { assert s[j..j + 1][0] == version[j]; }
    assert s[|version|..|version| + 1] == "'";
    SplitOnceAt(s, "'", |version|);
    assert s[..|version|] == version && s[|version| + 1..] == rest;
  }

  lemma QuoteWasFirst(s: string)
    requires SplitOnce(s, "'").Some?
    ensures var (version, rest) := SplitOnce(s, "'").value; '\'' !in version && s == version + "'" + rest
  {
    var version := SplitOnce(s, "'").value.0;
    SplitOnceIgnoresTheRest(s, "'", "");
    forall j | 0 <= j < |version| ensures version[j] != '\'' {
      assert !OccursAt(s, "'", j);
      assert s[j..j + 1] == [version[j]];
    }
  }

  /** The recorded versions are those of these lines, in their order. */
  lemma {:induction false} RecordedExactly(lines: seq<string>) returns (at: seq<int>)
    ensures |at| == |Recorded(lines)|
    ensures forall m :: 0 <= m < |at| ==> 0 <= at[m] < |lines| && Records(lines[at[m]], Recorded(lines)[m])
    ensures forall m, n :: 0 <= m < n < |at| ==> at[m] < at[n]
    ensures forall k, version :: 0 <= k < |lines| && Records(lines[k], version) ==> k in at
  {
    hide Records, Stripped;
    if lines == [] {
      at := [];
    } else {
      var n := |lines| - 1;
      at := RecordedExactly(lines[..n]);
      forall version ensures VersionIn(lines[n]) == Some(version) <==> Records(lines[n], version) {
        RecordsExactly(lines[n], version);
      }
      assert forall k :: 0 <= k < n ==> lines[..n][k] == lines[k];
      if VersionIn(lines[n]).Some? {
        assert Records(lines[n], VersionIn(lines[n]).value);
        at := at + [n];
      }
    }
  }

  // -------------------------------------------------------------- versions

  lemma {:induction false} PaddingKeepsTheValue(text: string, width: nat)
    requires AllDigits(text)
    ensures var padded := ZeroPadded(text, width);
      AllDigits(padded) && DecimalValue(padded) == DecimalValue(text) && |padded| == (if |text| < width then width else |text|)
      && (|text| >= width ==> padded == text)
    decreases width - |text|
  {
    if |text| < width {
      ZeroInFront(text);
      PaddingKeepsTheValue("0" + text, width);
    }
  }

  lemma {:induction false} ZeroInFront(text: string)
    requires AllDigits(text)
    ensures AllDigits("0" + text) && DecimalValue("0" + text) == DecimalValue(text)
  {
    if text == "" {
      assert "0" + "" == "0" && "0"[..0] == "";
    } else {
      var n := |text| - 1;
      assert ("0" + text)[..n + 1] == "0" + text[..n];
      ZeroInFront(text[..n]);
    }
  }

  /** A shipped version is its number in decimal, in three digits or as many as
      it needs. */
  lemma ShippedVersionsExactly(migrations: seq<Migration>)
    ensures |ShippedVersions(migrations)| == |migrations|
    ensures forall i :: 0 <= i < |migrations| ==>
      var text := ShippedVersions(migrations)[i];
      AllDigits(text) && DecimalValue(text) == migrations[i].version && |text| >= 3 && (|text| > 3 ==> text == DecimalText(migrations[i].version))
  {
    hide DecimalText;
    forall i | 0 <= i < |migrations|
      ensures var text := ShippedVersions(migrations)[i];
        AllDigits(text) && DecimalValue(text) == migrations[i].version && |text| >= 3 && (|text| > 3 ==> text == DecimalText(migrations[i].version))
    {
      DecimalRoundTrip(migrations[i].version);
      PaddingKeepsTheValue(DecimalText(migrations[i].version), 3);
    }
  }

  // ------------------------------------------------------------ violations

  /** File `i` comes no later than the last file before it that is included once. */
  predicate IsOutOfOrder(directives: seq<Directive>, files: seq<string>, i: int, j: int) {
    && 0 <= j < i < |files|
    && |Positions(directives, files[i])| == 1 && |Positions(directives, files[j])| == 1
    && (forall k :: j < k < i ==> |Positions(directives, files[k])| != 1)
    && Positions(directives, files[i])[0] <= Positions(directives, files[j])[0]
  }

  lemma {:induction false} PreviousIsTheNearest(directives: seq<Directive>, files: seq<string>, n: nat)
    requires n <= |files|
    ensures PreviousPosition(directives, files, n).None? ==> forall k :: 0 <= k < n ==> |Positions(directives, files[k])| != 1
    ensures PreviousPosition(directives, files, n).Some? ==>
      exists j :: IsNearest(directives, files, n, j) && Positions(directives, files[j])[0] == PreviousPosition(directives, files, n).value
  {
    hide Positions;
    if n > 0 {
      PreviousIsTheNearest(directives, files, n - 1);
      if |Positions(directives, files[n - 1])| == 1 {
        assert IsNearest(directives, files, n, n - 1);
      } else if PreviousPosition(directives, files, n - 1).Some? {
        var j :| IsNearest(directives, files, n - 1, j) && Positions(directives, files[j])[0] == PreviousPosition(directives, files, n - 1).value;
        assert IsNearest(directives, files, n, j);
      }
    }
  }

  predicate IsNearest(directives: seq<Directive>, files: seq<string>, n: int, j: int)
    requires n <= |files|
  {
    0 <= j < n && |Positions(directives, files[j])| == 1 && forall k :: j < k < n ==> |Positions(directives, files[k])| != 1
  }

  lemma NearestIsUnique(directives: seq<Directive>, files: seq<string>, n: int, i: int, j: int)
    requires n <= |files| && IsNearest(directives, files, n, i) && IsNearest(directives, files, n, j)
    ensures i == j
  {
    hide Positions;
  }

  /** What is reported of one file, and why. */
  lemma FileFindingExactly(directives: seq<Directive>, files: seq<string>, i: nat, v: Violation)
    requires i < |files|
    ensures v in FileFinding(directives, files, i) <==>
      || (|Positions(directives, files[i])| != 1 && v == NotExactlyOnce(files[i], |Positions(directives, files[i])|))
      || (v == OutOfOrder(files[i]) && exists j :: IsOutOfOrder(directives, files, i, j))
  {
    hide Positions;
    PreviousIsTheNearest(directives, files, i);
    var previous := PreviousPosition(directives, files, i);
    if previous.Some? {
      var j :| IsNearest(directives, files, i, j) && Positions(directives, files[j])[0] == previous.value;
      assert IsOutOfOrder(directives, files, i, j) <==> |Positions(directives, files[i])| == 1 && Positions(directives, files[i])[0] <= previous.value;
      forall m | IsOutOfOrder(directives, files, i, m) ensures m == j {
        NearestIsUnique(directives, files, i, j, m);
      }
    }
  }

  /** Every violation of the order is one of these, and every one is reported. */
  lemma {:induction false} OrderFindingsExactly(directives: seq<Directive>, files: seq<string>, n: nat, v: Violation)
    requires n <= |files|
    ensures v in OrderFindings(directives, files, n) <==> exists i: nat :: i < n && v in FileFinding(directives, files, i)
  {
    hide FileFinding;
    if n > 0 { OrderFindingsExactly(directives, files, n - 1, v); }
  }

  lemma {:induction false} UnknownFindingsExactly(directives: seq<Directive>, files: seq<string>, v: Violation)
    ensures v in UnknownFindings(directives, files) <==>
      exists i :: 0 <= i < |directives| && directives[i].file !in files && v == UnknownMigration(directives[i].file)
  {
    if directives != [] {
      var n := |directives| - 1;
      UnknownFindingsExactly(directives[..n], files, v);
      assert forall i :: 0 <= i < n ==> directives[..n][i] == directives[i];
    }
  }

  /** A ledger that disagrees is reported with what it has and what it should. */
  lemma LedgerFindingsExactly(recorded: seq<string>, shipped: seq<string>)
    ensures LedgerFindings(recorded, shipped) == [] <==> recorded == shipped
    ensures recorded != shipped ==> LedgerFindings(recorded, shipped) == [LedgerMismatch(recorded, shipped)]
  {}
}
