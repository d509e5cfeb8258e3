/**
 * The `deny.toml` list and the lockfile, character by character: which lines are
 * pins, what exactly is written, and which package blocks resolve.
 */
module DenyFormat {
  import opened Wrappers
  import opened Ordering
  import opened Text
  import opened DenyPins
  import opened DenyFix

  predicate AllOf(s: string, c: char) { forall i :: 0 <= i < |s| ==> s[i] == c }

  // --------------------------------------------------------------- reading

  /** A trimmed line that is no comment: quotes, the pin, quotes and commas. */
  predicate IsPinLine(text: string, pin: string, open: string, close: string, commas: string) {
    && text != "" && text[0] != '#'
    && text == open + pin + (close + commas)
    && AllOf(open, '"') && AllOf(close, '"') && AllOf(commas, ',')
    && (pin != "" ==> pin[0] != '"' && pin[|pin| - 1] != '"' && (close == "" ==> pin[|pin| - 1] != ','))
  }

  lemma PinLineIsRead(text: string, pin: string, open: string, close: string, commas: string)
    requires IsPinLine(text, pin, open, close, commas)
    ensures IsEntry(text) && PinOf(text) == pin
  {
    var quoted := open + (pin + close);
    assert text == quoted + commas;
    assert quoted != "" ==> quoted[|quoted| - 1] != ',' by {
      if close != "" { assert quoted[|quoted| - 1] == close[|close| - 1]; }
      else if pin != "" { assert quoted[|quoted| - 1] == pin[|pin| - 1]; }
      else if open != "" { assert quoted[|quoted| - 1] == open[|open| - 1]; }
    }
    TrimEndIs(quoted, commas, IsComma);
    if pin == "" {
      assert pin + close == close && quoted + "" == quoted;
      TrimStartIs(quoted, "", IsQuote);
    } else {
      TrimStartIs(open, pin + close, IsQuote);
      TrimEndIs(pin, close, IsQuote);
    }
  }

  lemma AllDroppedAre(s: string)
    ensures AllDropped(s, IsQuote) <==> AllOf(s, '"')
    ensures AllDropped(s, IsComma) <==> AllOf(s, ',')
  {}

  lemma StripsToItsInside(text: string) returns (open: string, close: string)
    ensures IsQuoted(text, open, TrimEnd(TrimStart(text, IsQuote), IsQuote), close)
  {
    var inside := TrimStart(text, IsQuote);
    open := TrimStartSplits(text, IsQuote);
    close := TrimEndSplits(inside, IsQuote);
    AllDroppedAre(open);
    AllDroppedAre(close);
    var inner := TrimEnd(inside, IsQuote);
    hide TrimStart, TrimEnd, AllDropped, AllOf;
    assert inner != "" ==> inner[0] == (inner + close)[0] == inside[0];
  }

  lemma EntryIsAPinLine(text: string) returns (open: string, close: string, commas: string)
    requires IsEntry(text)
    ensures IsPinLine(text, PinOf(text), open, close, commas)
  {
    var quoted := TrimEnd(text, IsComma);
    commas := TrimEndSplits(text, IsComma);
    AllDroppedAre(commas);
    open, close := StripsToItsInside(quoted);
    hide TrimStart, TrimEnd, AllDropped, AllOf;
    var pin := PinOf(text);
    assert text == open + (pin + close) + commas == open + pin + (close + commas);
    assert pin != "" && close == "" ==> quoted[|quoted| - 1] == pin[|pin| - 1];
  }

  /** The pins of a list are those of its lines, however they are indented,
      quoted and ended; blank lines and comments are none. */
  lemma PinsAreReadExactly(entries: string, pin: string)
    ensures pin in PinsIn(entries) <==> exists i, open, close, commas ::
      0 <= i < |Lines(entries)| && IsPinLine(Trim(Lines(entries)[i]), pin, open, close, commas)
  {
    hide IsPinLine, Lines, Trim, PinOf, IsEntry;
    var lines := Lines(entries);
    if pin in PinsIn(entries) {
      var i :| 0 <= i < |lines| && IsEntry(Trim(lines[i])) && PinOf(Trim(lines[i])) == pin;
      var open, close, commas := EntryIsAPinLine(Trim(lines[i]));
    }
    forall i, open, close, commas | 0 <= i < |lines| && IsPinLine(Trim(lines[i]), pin, open, close, commas)
      ensures pin in PinsIn(entries)
    {
      PinLineIsRead(Trim(lines[i]), pin, open, close, commas);
    }
  }

  /** Where a manifest has its list, in its own characters. */
  predicate HasList(manifest: string, head: string, entries: string, tail: string) {
    && manifest == head + ("allow-build-scripts = [" + (entries + ("\n]" + tail)))
    && (forall j :: 0 <= j < |head| ==> !OccursAt(manifest, "allow-build-scripts = [", j))
    && (forall j :: 0 <= j < |entries| ==> !OccursAt(entries + ("\n]" + tail), "\n]", j))
  }

  lemma SplitOnceExactly(s: string, needle: string, head: string, rest: string)
    ensures SplitOnce(s, needle) == Some((head, rest)) <==>
      s == head + (needle + rest) && forall j :: 0 <= j < |head| ==> !OccursAt(s, needle, j)
  {
    if SplitOnce(s, needle) == Some((head, rest)) {
      SplitOnceIgnoresTheRest(s, needle, "");
      assert head + needle + rest == head + (needle + rest);
    }
    if s == head + (needle + rest) && forall j :: 0 <= j < |head| ==> !OccursAt(s, needle, j) {
      assert s[|head|..|head| + |needle|] == needle;
      SplitOnceAt(s, needle, |head|);
      assert s[..|head|] == head && s[|head| + |needle|..] == rest;
    }
  }

  /** The list is found exactly where the opening first stands, up to the first
      closing line after it; without the one or the other it is reported. */
  lemma ListIsFoundExactly(manifest: string, head: string, entries: string, tail: string)
    ensures ListIn(manifest) == Ok((head, entries, tail)) <==> HasList(manifest, head, entries, tail)
    ensures ListIn(manifest) == Err(NoList) <==> forall j: nat :: !OccursAt(manifest, "allow-build-scripts = [", j)
  {
    hide SplitOnce;
    var body := entries + ("\n]" + tail);
    SplitOnceExactly(manifest, LIST_OPENING, head, body);
    SplitOnceExactly(body, CLOSING, entries, tail);
    assert SplitOnce(manifest, LIST_OPENING).None? <==> forall j: nat :: !OccursAt(manifest, LIST_OPENING, j) by { NoneOccurs(manifest, LIST_OPENING); }
    if ListIn(manifest) == Ok((head, entries, tail)) {
      var rest := SplitOnce(manifest, LIST_OPENING).value.1;
      SplitOnceExactly(rest, CLOSING, entries, tail);
    }
  }

  lemma NoneOccurs(s: string, needle: string)
    ensures SplitOnce(s, needle).None? <==> forall j: nat :: !OccursAt(s, needle, j)
  {}

  // --------------------------------------------------------------- writing

  /** One line for each pin: four spaces, the pin in quotes, a comma. */
  function WrittenLines(pins: seq<string>): string {
    if pins == [] then "" else "\n    \"" + pins[0] + "\"," + WrittenLines(pins[1..])
  }

  predicate IsInOrder(pins: seq<string>) { forall i, j :: 0 <= i < j < |pins| ==> LexLess(pins[i], pins[j]) }

  lemma {:induction false} WrittenLinesAreTheBody(pins: seq<string>)
    ensures Block(EntryLines(pins)) == WrittenLines(pins)
  {
    if pins != [] {
      WrittenLinesAreTheBody(pins[1..]);
      assert EntryLines(pins)[1..] == EntryLines(pins[1..]);
      assert "\n" + EntryLine(pins[0]) == "\n    \"" + pins[0] + "\",";
    }
  }

  /** What is written: the old head and tail around one line for each pin, in
      increasing order; an empty list leaves one empty line. */
  lemma RewrittenTextIs(manifest: string, pins: set<string>, head: string, entries: string, tail: string) returns (order: seq<string>)
    requires HasList(manifest, head, entries, tail)
    ensures IsInOrder(order) && forall pin :: pin in order <==> pin in pins
    ensures Rewrite(manifest, pins) == Ok(head + ("allow-build-scripts = [" + ((if pins == {} then "\n" else WrittenLines(order)) + ("\n]" + tail))))
  {
    order := InOrder(pins);
    OrderIsListed(pins);
    hide InOrder, HasList;
    ListIsFoundExactly(manifest, head, entries, tail);
    RewriteOfList(manifest, pins);
    JoinIsBody(EntryLines(order));
    WrittenLinesAreTheBody(order);
    assert Body(EntryLines(order)) == if order == [] then "\n" else WrittenLines(order);
    hide Body, WrittenLines, EntryLines, ListIn, Rewrite;
    Regrouped(head, LIST_OPENING, "\n" + Joined(EntryLines(order), '\n'), CLOSING, tail);
  }

  lemma Regrouped(a: string, b: string, c: string, d: string, e: string)
    ensures a + b + c + d + e == a + (b + (c + (d + e)))
  {}

  lemma RewriteOfList(manifest: string, pins: set<string>)
    requires ListIn(manifest).Ok?
    ensures Rewrite(manifest, pins) == Ok(ListIn(manifest).value.0 + LIST_OPENING + ("\n" + Joined(EntryLines(InOrder(pins)), '\n'))
      + CLOSING + ListIn(manifest).value.2)
  {
    hide InOrder, EntryLines, Joined;
    var head, lines := ListIn(manifest).value.0 + LIST_OPENING, Joined(EntryLines(InOrder(pins)), '\n');
    assert head + ("\n" + lines) == head + "\n" + lines;
  }

  lemma OrderIsListed(pins: set<string>)
    ensures IsInOrder(InOrder(pins))
    ensures forall pin :: pin in InOrder(pins) <==> pin in pins
    ensures InOrder(pins) == [] <==> pins == {}
  {
    LexIsAnOrder();
    SortedListsTheSet(LexLess, pins);
    assert InOrder(pins) != [] ==> InOrder(pins)[0] in InOrder(pins);
  }

  // -------------------------------------------------------------- lockfile

  /** A line of the lockfile that names a package, or gives its version. */
  predicate IsKeyLine(line: string) { HasPrefix(line, "name = ") || HasPrefix(line, "version = ") }

  predicate IsQuoted(text: string, open: string, inner: string, close: string) {
    && text == open + (inner + close) && AllOf(open, '"') && AllOf(close, '"')
    && (inner != "" ==> inner[0] != '"' && inner[|inner| - 1] != '"')
  }

  lemma QuotedIsRead(text: string, open: string, inner: string, close: string)
    requires IsQuoted(text, open, inner, close)
    ensures Unquoted(text) == inner
  {
    if inner == "" {
      assert inner + close == close && text + "" == text;
      TrimStartIs(text, "", IsQuote);
    } else {
      TrimStartIs(open, inner + close, IsQuote);
      TrimEndIs(inner, close, IsQuote);
    }
  }

  lemma UnquotedIsInside(text: string) returns (open: string, close: string)
    ensures IsQuoted(text, open, Unquoted(text), close)
  {
    open, close := StripsToItsInside(text);
  }

  /** A package block of the lockfile: a name line, then a version line with no
      other of either between them, the values in quotes. */
  predicate IsBlock(lines: seq<string>, i: int, j: int, name: string, version: string, marks: (string, string, string, string)) {
    && 0 <= i < j < |lines|
    && HasPrefix(lines[i], "name = ") && IsQuoted(lines[i][7..], marks.0, name, marks.1)
    && HasPrefix(lines[j], "version = ") && IsQuoted(lines[j][10..], marks.2, version, marks.3)
    && forall k :: i < k < j ==> !IsKeyLine(lines[k])
  }

  /** Resolved is exactly what some package block gives. */
  lemma ResolvedExactly(lockfile: string, pin: string)
    ensures Resolves(lockfile, pin) <==> exists i, j, name, version, marks ::
      IsBlock(Lines(lockfile), i, j, name, version, marks) && pin == name + "@" + version
  {
    hide Lines, Unquoted, IsQuoted, HasPrefix;
    var lines := Lines(lockfile);
    if Resolves(lockfile, pin) {
      var i, j :| PackageAt(lines, i, j) && j < |lines| && PinAt(lines, i, j) == pin;
      KeysHaveTheirLength(lines[i], lines[j]);
      var a, b := UnquotedIsInside(lines[i][7..]);
      var c, d := UnquotedIsInside(lines[j][10..]);
      assert IsBlock(lines, i, j, Name(lines[i]), Version(lines[j]), (a, b, c, d));
    }
    forall i, j, name, version, marks | IsBlock(lines, i, j, name, version, marks) && pin == name + "@" + version
      ensures Resolves(lockfile, pin)
    {
      BlockResolves(lockfile, i, j, name, version, marks);
    }
  }

  lemma KeysHaveTheirLength(a: string, b: string)
    ensures IsName(a) ==> |a| >= 7 && Name(a) == Unquoted(a[7..])
    ensures IsVersion(b) ==> |b| >= 10 && Version(b) == Unquoted(b[10..])
  {}

  lemma BlockResolves(lockfile: string, i: int, j: int, name: string, version: string, marks: (string, string, string, string))
    requires IsBlock(Lines(lockfile), i, j, name, version, marks)
    ensures Resolves(lockfile, name + "@" + version)
  {
    hide Lines, Unquoted, IsQuoted, HasPrefix;
    var lines := Lines(lockfile);
    KeysHaveTheirLength(lines[i], lines[j]);
    QuotedIsRead(lines[i][7..], marks.0, name, marks.1);
    QuotedIsRead(lines[j][10..], marks.2, version, marks.3);
    assert PackageAt(lines, i, j) && PinAt(lines, i, j) == name + "@" + version;
  }

  // ------------------------------------------------------------------- fix

  /** The fixed set, pin by pin: every resolved build crate without a pin gets
      one, and a pin goes exactly when its name is such a crate's and it no longer
      resolves. */
  lemma FixedExactly(build: set<Crate>, pinned: set<string>, resolved: set<string>, pin: string)
    ensures pin in Fixed(build, pinned, resolved) <==>
      || (pin in pinned && (pin in resolved || !IsOfAnUnpinnedCrate(build, pinned, pin)))
      || exists c :: c in build && pin == c.name + "@" + c.version && pin !in pinned
  {
    NamesExactly(build, pinned, pin);
    hide NamesAnOffender, IsOfAnUnpinnedCrate;
    var offenders := Deny(build, pinned);
    assert (exists c :: c in offenders && Pin(c) == pin) <==> exists c :: c in build && pin == c.name + "@" + c.version && pin !in pinned by {
      forall c | c in build && pin == c.name + "@" + c.version && pin !in pinned ensures c in offenders && Pin(c) == pin {}
      forall c | c in offenders && Pin(c) == pin ensures c in build && pin == c.name + "@" + c.version && pin !in pinned {}
    }
  }

  /** The text before the first at sign is the name of a build crate that has no
      pin of its own version. */
  predicate IsOfAnUnpinnedCrate(build: set<Crate>, pinned: set<string>, pin: string) {
    exists c :: c in build && (c.name + "@" + c.version) !in pinned && '@' !in c.name && HasPrefix(pin, c.name + "@")
  }

  lemma NamesExactly(build: set<Crate>, pinned: set<string>, pin: string)
    ensures NamesAnOffender(pin, Deny(build, pinned)) <==> IsOfAnUnpinnedCrate(build, pinned, pin)
  {
    hide SplitOnce;
    if NamesAnOffender(pin, Deny(build, pinned)) {
      var (name, rest) := SplitOnce(pin, "@").value;
      var c :| c in Deny(build, pinned) && c.name == name;
      NoAtBefore(pin, name, rest);
      SplitOnceExactly(pin, "@", name, rest);
      assert pin == name + "@" + rest && pin[..|name| + 1] == name + "@";
    }
    if c :| c in build && (c.name + "@" + c.version) !in pinned && '@' !in c.name && HasPrefix(pin, c.name + "@") {
      var rest := pin[|c.name| + 1..];
      assert pin == c.name + ("@" + rest);
      AtIsFirst(pin, c.name, rest);
      assert c in Deny(build, pinned);
    }
  }

  lemma NoAtBefore(pin: string, name: string, rest: string)
    requires SplitOnce(pin, "@") == Some((name, rest))
    ensures '@' !in name
  {
    SplitOnceExactly(pin, "@", name, rest);
    forall j | 0 <= j < |name| ensures name[j] != '@' {
      assert !OccursAt(pin, "@", j);
      assert pin[j..j + 1] == [name[j]];
    }
  }

  lemma AtIsFirst(pin: string, name: string, rest: string)
    requires '@' !in name && pin == name + ("@" + rest)
    ensures SplitOnce(pin, "@") == Some((name, rest))
  {
    forall j | 0 <= j < |name| ensures !OccursAt(pin, "@", j) { assert pin[j..j + 1][0] == name[j]; }
    SplitOnceExactly(pin, "@", name, rest);
  }
}
