/**
 * The installer check of the migration policy: three separate findings that
 * together are silent exactly when two sequences are equal.
 */
module Installer {
  import opened Wrappers
  import opened Text

  datatype Migration = Migration(file: string, version: nat)

  const DIRECTIVE := "\\ir migrations/"
  const COMMENT := "--"
  const LEDGER_INSERT_PREFIX := "INSERT " + "INTO public.aircraft_schema_migrations(version) VALUES ('"

  // ------------------------------------------------------------- scanning

  datatype Directive = Directive(line: nat, file: string)

  /** What follows `prefix` on an uncommented line. */
  function Stripped(line: string, prefix: string): Option<string> {
    var text := Trim(line);
    if HasPrefix(text, COMMENT) || !HasPrefix(text, prefix) then None else Some(text[|prefix|..])
  }

  /** The `\ir` lines, each with its line number. */
  function Directives(lines: seq<string>): seq<Directive> {
    if lines == [] then []
    else
      var n := |lines| - 1;
      var earlier := Directives(lines[..n]);
      match Stripped(lines[n], DIRECTIVE)
      case None => earlier
      case Some(file) => earlier + [Directive(n, file)]
  }

  /** The versions the installer records in the ledger. */
  function Recorded(lines: seq<string>): seq<string> {
    if lines == [] then []
    else
      var n := |lines| - 1;
      var earlier := Recorded(lines[..n]);
      match Stripped(lines[n], LEDGER_INSERT_PREFIX)
      case None => earlier
      case Some(rest) => if SplitOnce(rest, "'").Some? then earlier + [SplitOnce(rest, "'").value.0] else earlier
  }

  function ShippedVersions(migrations: seq<Migration>): seq<string> {
    seq(|migrations|, i requires 0 <= i < |migrations| => ZeroPadded(DecimalText(migrations[i].version), 3))
  }

  function FilesOf(migrations: seq<Migration>): seq<string> {
    seq(|migrations|, i requires 0 <= i < |migrations| => migrations[i].file)
  }

  function FilesNamed(directives: seq<Directive>): seq<string> {
    seq(|directives|, i requires 0 <= i < |directives| => directives[i].file)
  }

  /** The lines at which a file is included. */
  function Positions(directives: seq<Directive>, file: string): seq<nat> {
    if directives == [] then []
    else
      var n := |directives| - 1;
      var earlier := Positions(directives[..n], file);
      if directives[n].file == file then earlier + [directives[n].line] else earlier
  }

  predicate Distinct(files: seq<string>) {
    forall i, j :: 0 <= i < j < |files| ==> files[i] != files[j]
  }

  // ------------------------------------------------------ the three checks

  predicate EachOnce(directives: seq<Directive>, files: seq<string>) {
    forall i :: 0 <= i < |files| ==> |Positions(directives, files[i])| == 1
  }

  predicate InOrder(directives: seq<Directive>, files: seq<string>)
    requires EachOnce(directives, files)
  {
    forall i, j :: 0 <= i < j < |files| ==> Positions(directives, files[i])[0] < Positions(directives, files[j])[0]
  }

  predicate AllKnown(directives: seq<Directive>, files: seq<string>) {
    forall i :: 0 <= i < |directives| ==> directives[i].file in files
  }

  predicate Passes(directives: seq<Directive>, files: seq<string>) {
    EachOnce(directives, files) && InOrder(directives, files) && AllKnown(directives, files)
  }

  datatype Violation =
    | NotExactlyOnce(file: string, found: nat)
    | OutOfOrder(file: string)
    | UnknownMigration(file: string)
    | LedgerMismatch(recorded: seq<string>, shipped: seq<string>)
    | LedgerUndeclared

  /** The position of the last of the first `n` files that is included once. */
  function PreviousPosition(directives: seq<Directive>, files: seq<string>, n: nat): Option<nat>
    requires n <= |files|
  {
    if n == 0 then None
    else if |Positions(directives, files[n - 1])| == 1 then Some(Positions(directives, files[n - 1])[0])
    else PreviousPosition(directives, files, n - 1)
  }

  /** What is reported of file `n`. */
  function FileFinding(directives: seq<Directive>, files: seq<string>, n: nat): seq<Violation>
    requires n < |files|
  {
    var positions := Positions(directives, files[n]);
    var previous := PreviousPosition(directives, files, n);
    if |positions| != 1 then [NotExactlyOnce(files[n], |positions|)]
    else if previous.Some? && positions[0] <= previous.value then [OutOfOrder(files[n])]
    else []
  }

  function OrderFindings(directives: seq<Directive>, files: seq<string>, n: nat): seq<Violation>
    requires n <= |files|
  {
    if n == 0 then [] else OrderFindings(directives, files, n - 1) + FileFinding(directives, files, n - 1)
  }

  function UnknownFindings(directives: seq<Directive>, files: seq<string>): seq<Violation> {
    if directives == [] then []
    else
      var n := |directives| - 1;
      UnknownFindings(directives[..n], files)
        + (if directives[n].file in files then [] else [UnknownMigration(directives[n].file)])
  }

  function LedgerFindings(recorded: seq<string>, shipped: seq<string>): seq<Violation> {
    if recorded == shipped then [] else [LedgerMismatch(recorded, shipped)]
  }

  class Policy {
    var violations: seq<Violation>

    constructor ()
      ensures violations == []
    {
      violations := [];
    }

    /** Adds to the violations; silent exactly when the installer runs the
        migrations on disk, in order, each once, and records their versions. */
    method CheckInstaller(migrations: seq<Migration>, installer: string)
      requires Distinct(FilesOf(migrations))
      modifies this
      ensures var directives, files := Directives(Lines(installer)), FilesOf(migrations);
        violations == old(violations) + OrderFindings(directives, files, |files|) + UnknownFindings(directives, files)
          + LedgerFindings(Recorded(Lines(installer)), ShippedVersions(migrations))
      ensures violations == old(violations) <==>
        FilesNamed(Directives(Lines(installer))) == FilesOf(migrations) && Recorded(Lines(installer)) == ShippedVersions(migrations)
    {
      var directives := Directives(Lines(installer));
      var files := FilesOf(migrations);
      CheckOrder(directives, files);
      CheckKnown(directives, files);
      DirectivesAreOrdered(Lines(installer));
      InstallerMatchesExactly(directives, files);
      var recorded, shipped := Recorded(Lines(installer)), ShippedVersions(migrations);
      if recorded != shipped {
        violations := violations + [LedgerMismatch(recorded, shipped)];
      }
    }

    method CheckOrder(directives: seq<Directive>, files: seq<string>)
      modifies this
      ensures violations == old(violations) + OrderFindings(directives, files, |files|)
      ensures violations == old(violations) <==> EachOnce(directives, files) && InOrder(directives, files)
    {
      var previous: Option<nat> := None;
      var i := 0;
      while i < |files|
        invariant i <= |files|
        invariant violations == old(violations) + OrderFindings(directives, files, i)
        invariant previous == PreviousPosition(directives, files, i)
        invariant violations == old(violations) <==> EachOnce(directives, files[..i]) && InOrder(directives, files[..i])
        invariant violations == old(violations) ==>
          previous == if i == 0 then None else Some(Positions(directives, files[i - 1])[0])
      {
        hide Positions, EachOnce, InOrder;
        var positions := Positions(directives, files[i]);
        OneMoreFile(directives, files, i);
        if |positions| != 1 {
          violations := violations + [NotExactlyOnce(files[i], |positions|)];
        } else {
          if previous.Some? && positions[0] <= previous.value {
            violations := violations + [OutOfOrder(files[i])];
          }
          previous := Some(positions[0]);
        }
        i := i + 1;
      }
      assert files[..i] == files;
    }

    method CheckKnown(directives: seq<Directive>, files: seq<string>)
      modifies this
      ensures violations == old(violations) + UnknownFindings(directives, files)
      ensures violations == old(violations) <==> AllKnown(directives, files)
    {
      var i := 0;
      while i < |directives|
        invariant i <= |directives|
        invariant violations == old(violations) + UnknownFindings(directives[..i], files)
        invariant violations == old(violations) <==> AllKnown(directives[..i], files)
      {
        assert directives[..i + 1][..i] == directives[..i];
        assert directives[..i + 1] == directives[..i] + [directives[i]];
        if directives[i].file !in files {
          violations := violations + [UnknownMigration(directives[i].file)];
        }
        i := i + 1;
      }
      assert directives[..i] == directives;
    }
  }

  lemma OneMoreFile(directives: seq<Directive>, files: seq<string>, i: nat)
    requires i < |files|
    ensures EachOnce(directives, files[..i + 1]) <==> EachOnce(directives, files[..i]) && |Positions(directives, files[i])| == 1
    ensures EachOnce(directives, files[..i + 1]) ==>
      (InOrder(directives, files[..i + 1]) <==>
        (InOrder(directives, files[..i]) && (i > 0 ==> Positions(directives, files[i - 1])[0] < Positions(directives, files[i])[0])))
  {
    hide Positions;
    var longer, shorter := files[..i + 1], files[..i];
    assert longer == shorter + [files[i]];
    assert forall k :: 0 <= k < i ==> longer[k] == shorter[k];
  }

  // ------------------------------------------------------ sequence equality

  predicate OrderedLines(directives: seq<Directive>) {
    forall i, j :: 0 <= i < j < |directives| ==> directives[i].line < directives[j].line
  }

  lemma {:induction false} DirectivesAreOrdered(lines: seq<string>)
    ensures OrderedLines(Directives(lines))
    ensures forall i :: 0 <= i < |Directives(lines)| ==> Directives(lines)[i].line < |lines|
  {
    if lines != [] { DirectivesAreOrdered(lines[..|lines| - 1]); }
  }

  lemma {:induction false} PositionsAreLines(directives: seq<Directive>, file: string)
    ensures forall p :: p in Positions(directives, file) <==> exists i :: 0 <= i < |directives| && directives[i] == Directive(p, file)
    ensures file in FilesNamed(directives) <==> Positions(directives, file) != []
  {
    if directives != [] {
      var n := |directives| - 1;
      PositionsAreLines(directives[..n], file);
      assert FilesNamed(directives) == FilesNamed(directives[..n]) + [directives[n].file];
    }
  }

  lemma LinesGrow(directives: seq<Directive>, k: nat, m: nat)
    requires OrderedLines(directives) && k <= m < |directives|
    ensures directives[k].line <= directives[m].line
  {}

  /** With every file once, in order and none unknown, the last directive is the
      last file: the two sequences can be peeled together. */
  lemma LastDirectiveIsLastFile(directives: seq<Directive>, files: seq<string>)
    requires OrderedLines(directives) && Distinct(files) && files != []
    requires Passes(directives, files)
    ensures directives != [] && directives[|directives| - 1].file == files[|files| - 1]
  {
    var n, m := |files| - 1, |directives| - 1;
    PositionsAreLines(directives, files[n]);
    assert Positions(directives, files[n])[0] in Positions(directives, files[n]);
    var last := directives[m];
    var i :| 0 <= i < |files| && files[i] == last.file;
    assert Positions(directives, last.file)[0] == last.line;
    var k :| 0 <= k < |directives| && directives[k] == Directive(Positions(directives, files[n])[0], files[n]);
    LinesGrow(directives, k, m);
  }

  /** One more directive and one more file, the same one, on both sides. */
  lemma PushKeepsPassing(directives: seq<Directive>, files: seq<string>, last: Directive)
    requires OrderedLines(directives + [last]) && Distinct(files + [last.file]) && Passes(directives, files)
    ensures Passes(directives + [last], files + [last.file])
  {
    hide Positions;
    var ds, fs := directives + [last], files + [last.file];
    PositionsAfterPush(directives, files, last);
    forall i | 0 <= i < |files| ensures Positions(directives, files[i])[0] < last.line {
      PositionsAreLines(directives, files[i]);
      assert Positions(directives, files[i])[0] in Positions(directives, files[i]);
      var k :| 0 <= k < |directives| && directives[k] == Directive(Positions(directives, files[i])[0], files[i]);
      assert ds[k].line < ds[|directives|].line;
    }
  }

  lemma PopKeepsPassing(directives: seq<Directive>, files: seq<string>, last: Directive)
    requires Distinct(files + [last.file]) && Passes(directives + [last], files + [last.file])
    ensures Passes(directives, files)
  {
    hide Positions;
    var ds, fs := directives + [last], files + [last.file];
    assert fs[|files|] == last.file;
    PositionsOfPush(directives, last, last.file);
    forall i | 0 <= i < |files| ensures fs[i] == files[i] && Positions(ds, files[i]) == Positions(directives, files[i]) {
      PositionsOfPush(directives, last, files[i]);
    }
    PositionsAreLines(directives, last.file);
    forall i | 0 <= i < |directives| ensures directives[i].file in files {
      assert ds[i].file in fs;
      assert FilesNamed(directives)[i] == directives[i].file;
    }
  }

  /** Where files are found once `last` has been added to passing directives. */
  lemma PositionsAfterPush(directives: seq<Directive>, files: seq<string>, last: Directive)
    requires Distinct(files + [last.file]) && AllKnown(directives, files)
    ensures forall i :: 0 <= i < |files| ==> Positions(directives + [last], files[i]) == Positions(directives, files[i])
    ensures Positions(directives + [last], last.file) == [last.line]
  {
    hide Positions;
    var fs := files + [last.file];
    forall i | 0 <= i < |files| ensures Positions(directives + [last], files[i]) == Positions(directives, files[i]) {
      assert fs[i] != fs[|files|];
      PositionsOfPush(directives, last, files[i]);
    }
    assert forall i :: 0 <= i < |files| ==> files[i] == fs[i] && fs[i] != fs[|files|] == last.file;
    PositionsAreLines(directives, last.file);
    PositionsOfPush(directives, last, last.file);
    assert last.file !in FilesNamed(directives) by { assert forall k :: 0 <= k < |directives| ==> directives[k].file in files; }
  }

  lemma PositionsOfPush(directives: seq<Directive>, last: Directive, file: string)
    ensures Positions(directives + [last], file) == Positions(directives, file) + (if last.file == file then [last.line] else [])
  {
    assert (directives + [last])[..|directives|] == directives;
  }

  lemma PassesPeeled(directives: seq<Directive>, files: seq<string>, last: Directive)
    requires OrderedLines(directives + [last]) && Distinct(files + [last.file])
    ensures Passes(directives + [last], files + [last.file]) <==> Passes(directives, files)
  {
    hide Passes, OrderedLines, Distinct;
    if Passes(directives, files) { PushKeepsPassing(directives, files, last); }
    if Passes(directives + [last], files + [last.file]) { PopKeepsPassing(directives, files, last); }
  }

  lemma NamesPeeled(directives: seq<Directive>, files: seq<string>, last: Directive)
    ensures FilesNamed(directives + [last]) == files + [last.file] <==> FilesNamed(directives) == files
  {
    assert FilesNamed(directives + [last]) == FilesNamed(directives) + [last.file];
    if FilesNamed(directives) + [last.file] == files + [last.file] {
      assert FilesNamed(directives) == (FilesNamed(directives) + [last.file])[..|directives|];
      assert files == (files + [last.file])[..|files|];
    }
  }

  lemma SameLastName(directives: seq<Directive>, files: seq<string>)
    requires files != [] && FilesNamed(directives) == files
    ensures directives != [] && directives[|directives| - 1].file == files[|files| - 1]
  {
    assert FilesNamed(directives)[|directives| - 1] == directives[|directives| - 1].file;
  }

  lemma {:induction false} InstallerMatchesExactly(directives: seq<Directive>, files: seq<string>)
    requires OrderedLines(directives) && Distinct(files)
    ensures Passes(directives, files) <==> FilesNamed(directives) == files
  {
    hide Passes, OrderedLines, Distinct, FilesNamed;
    if files == [] {
      NoFilesNoDirectives(directives);
    } else {
      var n, m := |files| - 1, |directives| - 1;
      if Passes(directives, files) { LastDirectiveIsLastFile(directives, files); }
      if FilesNamed(directives) == files { SameLastName(directives, files); }
      if directives != [] && directives[m].file == files[n] {
        assert directives == directives[..m] + [directives[m]] && files == files[..n] + [directives[m].file];
        ShorterIsOrdered(directives, files);
        InstallerMatchesExactly(directives[..m], files[..n]);
        PassesPeeled(directives[..m], files[..n], directives[m]);
        NamesPeeled(directives[..m], files[..n], directives[m]);
      }
    }
  }

  lemma ShorterIsOrdered(directives: seq<Directive>, files: seq<string>)
    requires directives != [] && files != [] && OrderedLines(directives) && Distinct(files)
    ensures OrderedLines(directives[..|directives| - 1]) && Distinct(files[..|files| - 1])
  {}

  lemma NoFilesNoDirectives(directives: seq<Directive>)
    ensures Passes(directives, []) <==> FilesNamed(directives) == []
  {
    assert directives != [] ==> directives[0].file !in [];
  }
}
