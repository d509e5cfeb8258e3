/**
 * Reading the ledger assertion of the migration validations: comments are taken
 * out, then the `expected_versions` array literal is read back.
 */
module SqlLedger {
  import opened Wrappers
  import opened Text
  import opened Installer
  import opened SqlComments

  const DECLARATION_PREFIX := "expected_versions CONSTANT TEXT[] := ARRAY["

  // -------------------------------------------------------------- literal

  predicate IsVersion(v: string) { |v| == 3 && AllDigits(v) }

  function Version(entry: string): Option<string> {
    var t := Trim(entry);
    if |t| < 2 || t[0] != '\'' || t[|t| - 1] != '\'' || !IsVersion(t[1..|t| - 1]) then None else Some(t[1..|t| - 1])
  }

  function Versions(entries: seq<string>): Option<seq<string>> {
    if entries == [] then Some([])
    else
      var n := |entries| - 1;
      match (Versions(entries[..n]), Version(entries[n]))
      case (Some(earlier), Some(v)) => Some(earlier + [v])
      case _ => None
  }

  predicate Opens(line: string) { HasPrefix(line, DECLARATION_PREFIX) }

  function AfterPrefix(line: string): string
    requires Opens(line)
  {
    line[|DECLARATION_PREFIX|..]
  }

  predicate Closes(suffix: string) { HasPrefix(TrimStart(suffix, IsWhitespace), ";") }

  function FirstDeclaration(lines: seq<string>, i: nat): (at: Option<nat>)
    ensures at.Some? ==> i <= at.value < |lines| && Opens(lines[at.value])
    ensures forall k :: i <= k < (if at.Some? then at.value else |lines|) ==> !Opens(lines[k])
    decreases |lines| - i
  {
    if i >= |lines| then None
    else if Opens(lines[i]) then Some(i)
    else FirstDeclaration(lines, i + 1)
  }

  function Literal(lines: seq<string>, text: string, next: nat): Option<string>
    decreases |lines| - next
  {
    if ']' in text then Some(text)
    else if next >= |lines| then None
    else Literal(lines, text + lines[next], next + 1)
  }

  /** The versions declared by trimmed, uncommented lines. */
  function DeclaredIn(lines: seq<string>): Option<seq<string>> {
    match FirstDeclaration(lines, 0)
    case None => None
    case Some(at) =>
      match Literal(lines, AfterPrefix(lines[at]), at + 1)
      case None => None
      case Some(literal) =>
        match SplitOnce(literal, "]")
        case None => None
        case Some(parts) =>
          if !Closes(parts.1) then None else Versions(Split(parts.0, ','))
  }

  function TrimmedLines(text: string): seq<string> {
    var lines := Lines(text);
    seq(|lines|, i requires 0 <= i < |lines| => Trim(lines[i]))
  }

  function Declared(sql: string): Option<seq<string>> {
    match Active(sql, 0)
    case None => None
    case Some(text) => DeclaredIn(TrimmedLines(text))
  }

  method LedgerVersions(sql: string) returns (result: Option<seq<string>>)
    ensures result == Declared(sql)
  {
    hide Active, TrimmedLines, Versions;
    var active := WithoutSqlComments(sql);
    if active.None? { return None; }
    var lines := TrimmedLines(active.value);
    var at := FirstDeclaration(lines, 0);
    if at.None? { return None; }
    var literal, next := AfterPrefix(lines[at.value]), at.value + 1;
    while ']' !in literal
      invariant at.value < next <= |lines|
      invariant Literal(lines, literal, next) == Literal(lines, AfterPrefix(lines[at.value]), at.value + 1)
      decreases |lines| - next
    {
      if next >= |lines| { return None; }
      literal, next := literal + lines[next], next + 1;
    }
    var parts := SplitOnce(literal, "]");
    if parts.None? || !Closes(parts.value.1) { return None; }
    result := Versions(Split(parts.value.0, ','));
  }

  /** `check_history_ledger`: silent exactly when the declared versions are the
      shipped ones, in the shipped order. */
  method CheckHistoryLedger(policy: Policy, migrations: seq<Migration>, sql: string)
    modifies policy
    ensures policy.violations == old(policy.violations) +
      (if Declared(sql).None? then [LedgerUndeclared] else LedgerFindings(Declared(sql).value, ShippedVersions(migrations)))
    ensures policy.violations == old(policy.violations) <==> Declared(sql) == Some(ShippedVersions(migrations))
  {
    var declared := LedgerVersions(sql);
    var shipped := ShippedVersions(migrations);
    if declared.None? {
      policy.violations := policy.violations + [LedgerUndeclared];
    } else if declared.value != shipped {
      policy.violations := policy.violations + [LedgerMismatch(declared.value, shipped)];
    }
  }

  function Concatenated(lines: seq<string>, i: nat, j: nat): string
    requires i <= j <= |lines|
  {
    if i == j then "" else Concatenated(lines, i, j - 1) + lines[j - 1]
  }

  /** The declaration opened by line `at`, as far as line `end`. */
  function LiteralText(lines: seq<string>, at: nat, end: nat): string
    requires at < end <= |lines| && Opens(lines[at])
  {
    AfterPrefix(lines[at]) + Concatenated(lines, at + 1, end)
  }

  /** The bracket comes in with the last of these lines. */
  predicate IsLastLine(lines: seq<string>, at: nat, end: nat) {
    && at < end <= |lines| && Opens(lines[at])
    && ']' in LiteralText(lines, at, end)
    && (at + 1 < end ==> ']' !in LiteralText(lines, at, end - 1))
  }

  predicate IsEntryOf(entry: string, version: string) {
    ',' !in entry && IsVersion(version) && Trim(entry) == "'" + version + "'"
  }

  /** A layout of the declaration: the first line that opens one, the line that
      closes it, an entry for each version, and what follows the bracket. */
  ghost predicate IsDeclaration(lines: seq<string>, versions: seq<string>, at: nat, end: nat, entries: seq<string>, suffix: string) {
    && at < end <= |lines| && Opens(lines[at])
    && (forall k :: 0 <= k < at ==> !Opens(lines[k]))
    && (at + 1 < end ==> ']' !in LiteralText(lines, at, end - 1))
    && LiteralText(lines, at, end) == Joined(entries, ',') + "]" + suffix
    && ']' !in Joined(entries, ',')
    && Closes(suffix)
    && |entries| == |versions| > 0
    && (forall i :: 0 <= i < |entries| ==> IsEntryOf(entries[i], versions[i]))
  }

  lemma EntryIsRead(entry: string, version: string)
    requires ',' !in entry
    ensures Version(entry) == Some(version) <==> IsEntryOf(entry, version)
  {
    var t := Trim(entry);
    if Version(entry) == Some(version) {
      assert t == [t[0]] + t[1..|t| - 1] + [t[|t| - 1]];
    }
    if IsEntryOf(entry, version) {
      assert ("'" + version + "'")[1..4] == version;
    }
  }

  lemma {:induction false} EntriesAreRead(entries: seq<string>, versions: seq<string>)
    requires forall i :: 0 <= i < |entries| ==> ',' !in entries[i]
    ensures Versions(entries) == Some(versions) <==>
      |entries| == |versions| && forall i :: 0 <= i < |entries| ==> IsEntryOf(entries[i], versions[i])
  {
    hide Version, IsEntryOf;
    if entries != [] {
      var n := |entries| - 1;
      if |versions| == |entries| {
        EntriesAreRead(entries[..n], versions[..n]);
        EntryIsRead(entries[n], versions[n]);
        assert versions == versions[..n] + [versions[n]];
      } else if Versions(entries[..n]).Some? {
        EntriesAreRead(entries[..n], Versions(entries[..n]).value);
      }
    }
  }

  lemma {:induction false} LiteralEndsAt(lines: seq<string>, at: nat, next: nat, end: nat)
    requires at < next <= end <= |lines| && Opens(lines[at])
    requires ']' in LiteralText(lines, at, end) && (next < end ==> ']' !in LiteralText(lines, at, end - 1))
    ensures Literal(lines, LiteralText(lines, at, next), next) == Some(LiteralText(lines, at, end))
    decreases end - next
  {
    hide Opens, LiteralText;
    if next < end {
      ConcatenatedGrows(lines, at, next, end - 1);
      LiteralEndsAt(lines, at, next + 1, end);
      OneMoreLine(lines, at, next);
    }
  }

  lemma OneMoreLine(lines: seq<string>, at: nat, next: nat)
    requires at < next < |lines| && Opens(lines[at])
    ensures LiteralText(lines, at, next + 1) == LiteralText(lines, at, next) + lines[next]
  {}

  lemma {:induction false} ConcatenatedGrows(lines: seq<string>, at: nat, i: nat, j: nat)
    requires at < i <= j <= |lines| && Opens(lines[at])
    ensures ']' in LiteralText(lines, at, i) ==> ']' in LiteralText(lines, at, j)
    decreases j - i
  {
    if i < j {
      ConcatenatedGrows(lines, at, i, j - 1);
      OneMoreLine(lines, at, j - 1);
    }
  }

  lemma {:induction false} LiteralEndsSomewhere(lines: seq<string>, at: nat, next: nat)
    requires at < next <= |lines| && Opens(lines[at])
    requires at + 1 < next ==> ']' !in LiteralText(lines, at, next - 1)
    requires Literal(lines, LiteralText(lines, at, next), next).Some?
    ensures exists end :: next <= end && IsLastLine(lines, at, end)
    decreases |lines| - next
  {
    hide Opens, LiteralText;
    if ']' in LiteralText(lines, at, next) {
      assert IsLastLine(lines, at, next);
    } else {
      OneMoreLine(lines, at, next);
      LiteralEndsSomewhere(lines, at, next + 1);
    }
  }

  lemma SplitAtBracket(entries: string, suffix: string)
    requires ']' !in entries
    ensures SplitOnce(entries + "]" + suffix, "]") == Some((entries, suffix))
  {
    var s := entries + "]" + suffix;
    assert s[|entries|..|entries| + 1] == "]";
    forall j | 0 <= j < |entries| ensures !OccursAt(s, "]", j) {
      assert s[j..j + 1][0] == entries[j];
    }
    SplitOnceAt(s, "]", |entries|);
    assert s[..|entries|] == entries && s[|entries| + 1..] == suffix;
  }

  /** Reading a literal and laying one out are inverse: versions are read
      exactly from the layouts that declare them. */
  lemma DeclarationIsReadExactly(lines: seq<string>, versions: seq<string>)
    ensures DeclaredIn(lines) == Some(versions) <==>
      exists at, end, entries, suffix :: IsDeclaration(lines, versions, at, end, entries, suffix)
  {
    if DeclaredIn(lines) == Some(versions) { ReadMeansDeclared(lines, versions); }
    forall at, end, entries, suffix | IsDeclaration(lines, versions, at, end, entries, suffix)
      ensures DeclaredIn(lines) == Some(versions)
    {
      DeclaredIsRead(lines, versions, at, end, entries, suffix);
    }
  }

  lemma FirstDeclarationIs(lines: seq<string>, at: nat)
    requires at < |lines| && Opens(lines[at])
    requires forall k :: 0 <= k < at ==> !Opens(lines[k])
    ensures FirstDeclaration(lines, 0) == Some(at)
  {
    hide Opens;
  }

  lemma DeclaredIsRead(lines: seq<string>, versions: seq<string>, at: nat, end: nat, entries: seq<string>, suffix: string)
    requires IsDeclaration(lines, versions, at, end, entries, suffix)
    ensures DeclaredIn(lines) == Some(versions)
  {
    hide Opens, Closes, Joined, IsEntryOf, Versions, SplitOnce, Literal, FirstDeclaration;
    FirstDeclarationIs(lines, at);
    assert LiteralText(lines, at, at + 1) == AfterPrefix(lines[at]);
    assert LiteralText(lines, at, end)[|Joined(entries, ',')|] == ']';
    LiteralEndsAt(lines, at, at + 1, end);
    SplitAtBracket(Joined(entries, ','), suffix);
    assert forall i :: 0 <= i < |entries| ==> ',' !in entries[i] by {
      forall i | 0 <= i < |entries| ensures ',' !in entries[i] { EntryHasNoComma(entries[i], versions[i]); }
    }
    SplitOfJoined(entries, ',');
    EntriesAreRead(entries, versions);
  }

  lemma EntryHasNoComma(entry: string, version: string)
    requires IsEntryOf(entry, version)
    ensures ',' !in entry
  {}

  lemma PartsAreLaidOut(literal: string, versions: seq<string>)
    requires SplitOnce(literal, "]").Some? && Versions(Split(SplitOnce(literal, "]").value.0, ',')) == Some(versions)
    ensures var (body, suffix) := SplitOnce(literal, "]").value;
      var entries := Split(body, ',');
      && literal == Joined(entries, ',') + "]" + suffix && ']' !in Joined(entries, ',')
      && |entries| == |versions| > 0 && (forall i :: 0 <= i < |entries| ==> IsEntryOf(entries[i], versions[i]))
  {
    hide IsEntryOf, Versions, Joined;
    var body := SplitOnce(literal, "]").value.0;
    SplitOnceIgnoresTheRest(literal, "]", "");
    BracketIsFirst(literal);
    SplitLosesNothing(body, ',');
    EntriesAreRead(Split(body, ','), versions);
  }

  lemma ReadMeansDeclared(lines: seq<string>, versions: seq<string>)
    requires DeclaredIn(lines) == Some(versions)
    ensures exists at, end, entries, suffix :: IsDeclaration(lines, versions, at, end, entries, suffix)
  {
    hide Opens, Closes, Joined, IsEntryOf, Versions, Literal, SplitOnce, Split;
    var at := FirstDeclaration(lines, 0).value;
    assert LiteralText(lines, at, at + 1) == AfterPrefix(lines[at]);
    LiteralEndsSomewhere(lines, at, at + 1);
    var end :| at + 1 <= end && IsLastLine(lines, at, end);
    LiteralEndsAt(lines, at, at + 1, end);
    hide Concatenated, FirstDeclaration, LiteralText;
    var literal := LiteralText(lines, at, end);
    PartsAreLaidOut(literal, versions);
    var parts := SplitOnce(literal, "]").value;
    assert IsDeclaration(lines, versions, at, end, Split(parts.0, ','), parts.1);
  }

  lemma BracketIsFirst(literal: string)
    requires SplitOnce(literal, "]").Some?
    ensures ']' !in SplitOnce(literal, "]").value.0
  {
    var head := SplitOnce(literal, "]").value.0;
    forall j | 0 <= j < |head| ensures head[j] != ']' {
      assert !OccursAt(literal, "]", j);
      assert literal[j..j + 1] == [head[j]];
    }
  }

  /** The declaration opens with these characters, */
  lemma OpeningIsSpelled(line: string)
    ensures Opens(line) <==> HasPrefix(line, "expected_versions CONSTANT TEXT[] := ARRAY[")
  {}

  /** and closes with a semicolon, perhaps after space. */
  lemma ClosingIsSpelled(suffix: string)
    ensures Closes(suffix) <==> exists space, rest :: suffix == space + (";" + rest) && AllDropped(space, IsWhitespace)
  {
    hide TrimStart, IsWhitespace, AllDropped;
    if Closes(suffix) {
      var space := TrimStartSplits(suffix, IsWhitespace);
      var rest := TrimStart(suffix, IsWhitespace);
      assert rest == ";" + rest[1..];
      assert suffix == space + (";" + rest[1..]);
    }
    if space, rest :| suffix == space + (";" + rest) && AllDropped(space, IsWhitespace) {
      assert !IsWhitespace(';') by { WhitespaceIsThese(';'); }
      TrimStartIs(space, ";" + rest, IsWhitespace);
      assert (";" + rest)[..1] == ";";
    }
  }
}
