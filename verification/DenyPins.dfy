/**
 * The build-script allowlist in `deny.toml`: a line-oriented reader, a writer
 * that touches nothing else, and the `--fix` edit that must converge.
 */
module DenyPins {
  import opened Wrappers
  import opened Ordering
  import opened Text

  const LIST_OPENING := "allow-build-scripts = ["
  const CLOSING := "\n]"
  const ENTRY_INDENT := "    "

  datatype PinError = NoList | Unterminated

  // -------------------------------------------------------------- reading

  predicate IsComma(c: char) { c == ',' }

  predicate IsQuote(c: char) { c == '"' }

  /** A trimmed line that is neither empty nor a comment. */
  predicate IsEntry(trimmed: string) { trimmed != "" && trimmed[0] != '#' }

  function PinOf(trimmed: string): string {
    TrimEnd(TrimStart(TrimEnd(trimmed, IsComma), IsQuote), IsQuote)
  }

  function PinsIn(entries: string): set<string> {
    var lines := Lines(entries);
    set i | 0 <= i < |lines| && IsEntry(Trim(lines[i])) :: PinOf(Trim(lines[i]))
  }

  function ParsePins(manifest: string): Result<set<string>, PinError> {
    match SplitOnce(manifest, LIST_OPENING)
    case None => Err(NoList)
    case Some((_, body)) =>
      match SplitOnce(body, CLOSING)
      case None => Err(Unterminated)
      case Some((entries, _)) => Ok(PinsIn(entries))
  }

  // -------------------------------------------------------------- writing

  function EntryLine(pin: string): string { ENTRY_INDENT + "\"" + pin + "\"," }

  function EntryLines(pins: seq<string>): seq<string> {
    seq(|pins|, i requires 0 <= i < |pins| => EntryLine(pins[i]))
  }

  /** A `BTreeSet` iterates in order. */
  ghost function InOrder(pins: set<string>): seq<string> {
    LexIsAnOrder();
    Sorted(LexLess, pins)
  }

  ghost function Rewrite(manifest: string, updated: set<string>): Result<string, PinError> {
    match SplitOnce(manifest, LIST_OPENING)
    case None => Err(NoList)
    case Some((head, body)) =>
      match SplitOnce(body, CLOSING)
      case None => Err(Unterminated)
      case Some((_, tail)) =>
        Ok(head + LIST_OPENING + "\n" + Joined(EntryLines(InOrder(updated)), '\n') + CLOSING + tail)
  }

  /** Where both find the list: the text before it, inside it and after it. */
  function ListIn(manifest: string): Result<(string, string, string), PinError> {
    match SplitOnce(manifest, LIST_OPENING)
    case None => Err(NoList)
    case Some((head, body)) =>
      match SplitOnce(body, CLOSING)
      case None => Err(Unterminated)
      case Some((entries, tail)) => Ok((head, entries, tail))
  }

  // ---------------------------------------------------------- the written list

  predicate OneLine(s: string) { '\n' !in s }

  /** Every line preceded by its line feed. */
  function Block(lines: seq<string>): string {
    if lines == [] then "" else "\n" + lines[0] + Block(lines[1..])
  }

  /** What stands between the opening and the closing of a written list. */
  function Body(lines: seq<string>): string { if lines == [] then "\n" else Block(lines) }

  lemma {:induction false} JoinIsBody(lines: seq<string>)
    ensures "\n" + Joined(lines, '\n') == Body(lines)
  {
    if |lines| == 1 {
      assert lines[1..] == [] && lines[0] + "" == lines[0];
      assert Block(lines) == "\n" + lines[0] + Block(lines[1..]);
    } else if |lines| > 1 {
      JoinIsBody(lines[1..]);
      var rest := "\n" + Joined(lines[1..], '\n');
      assert "\n" + (lines[0] + rest) == "\n" + lines[0] + rest;
    }
  }

  predicate Indented(lines: seq<string>) {
    forall i :: 0 <= i < |lines| ==> OneLine(lines[i]) && HasPrefix(lines[i], ENTRY_INDENT) && lines[i][|lines[i]| - 1] == ','
  }

  /** A line feed of the list is followed by its line's indent. */
  lemma {:induction false} BlockHasNoClosing(lines: seq<string>, i: nat)
    requires Indented(lines) && i < |Block(lines)| && Block(lines)[i] == '\n'
    ensures i + 1 < |Block(lines)| && Block(lines)[i + 1] == ' '
  {
    var b := Block(lines);
    var first := "\n" + lines[0];
    assert b == first + Block(lines[1..]);
    if i == 0 {
      assert b[1] == lines[0][0] == ENTRY_INDENT[0];
    } else {
      assert forall k :: 1 <= k < |first| ==> b[k] == lines[0][k - 1];
      BlockHasNoClosing(lines[1..], i - |first|);
    }
  }

  lemma ClosingIsFirstAfterBody(lines: seq<string>, tail: string)
    requires Indented(lines)
    ensures SplitOnce(Body(lines) + CLOSING + tail, CLOSING) == Some((Body(lines), tail))
  {
    var b := Body(lines);
    var t := b + CLOSING + tail;
    forall j | 0 <= j < |b| ensures !OccursAt(t, CLOSING, j) {
      if lines != [] && b[j] == '\n' { BlockHasNoClosing(lines, j); }
      assert t[j] == b[j] && t[j + 1] == (if j + 1 < |b| then b[j + 1] else '\n');
      assert t[j..j + 2] == [t[j], t[j + 1]];
    }
    assert t[|b|..|b| + 2] == CLOSING;
    SplitOnceAt(t, CLOSING, |b|);
    assert t[..|b|] == b && t[|b| + 2..] == tail;
  }

  lemma {:induction false} SplitOfBlock(lines: seq<string>)
    requires forall i :: 0 <= i < |lines| ==> OneLine(lines[i])
    ensures Split(Block(lines), '\n') == [""] + lines
  {
    if lines != [] {
      var rest := Block(lines[1..]);
      SplitOfBlock(lines[1..]);
      SplitAtTheFirst(lines[0], rest, '\n');
      var b := Block(lines);
      assert b[0] == '\n' && b[1..] == lines[0] + rest;
      assert ([""] + lines[1..])[1..] == lines[1..];
      assert [lines[0]] + lines[1..] == lines;
    }
  }

  /** Without a return before a line feed, lines are the pieces between feeds. */
  lemma LinesArePieces(s: string, pieces: seq<string>)
    requires Split(s, '\n') == pieces && pieces[|pieces| - 1] != ""
    requires forall i :: 0 <= i < |pieces| - 1 ==> WithoutReturn(pieces[i]) == pieces[i]
    ensures Lines(s) == pieces
  {
    hide Split, WithoutReturn;
    var n := |pieces| - 1;
    var ended := seq(n, i requires 0 <= i < n => WithoutReturn(pieces[i]));
    assert ended == pieces[..n];
    assert pieces == pieces[..n] + [pieces[n]];
  }

  lemma IndentedHasNoReturn(lines: seq<string>)
    requires Indented(lines)
    ensures forall i :: 0 <= i < |lines| ==> lines[i] != "" && WithoutReturn(lines[i]) == lines[i]
  {}

  lemma LinesOfBody(lines: seq<string>)
    requires Indented(lines)
    ensures Lines(Body(lines)) == [""] + lines
  {
    if lines == [] {
      assert "\n"[1..] == "";
      assert Split("\n", '\n') == ["", ""];
    } else {
      hide Split, Block, Indented, WithoutReturn, Lines;
      IndentedHasNoReturn(lines);
      assert forall i :: 0 <= i < |lines| ==> OneLine(lines[i]) by { EachIsOneLine(lines); }
      SplitOfBlock(lines);
      var pieces := [""] + lines;
      forall i | 0 <= i < |pieces| - 1 ensures WithoutReturn(pieces[i]) == pieces[i] {
        if i == 0 { NothingToDrop(); } else { assert pieces[i] == lines[i - 1]; }
      }
      LinesArePieces(Block(lines), pieces);
    }
  }

  lemma NothingToDrop()
    ensures WithoutReturn("") == ""
  {}

  lemma EachIsOneLine(lines: seq<string>)
    requires Indented(lines)
    ensures forall i :: 0 <= i < |lines| ==> OneLine(lines[i])
  {}

  // ----------------------------------------------------------- round trip

  /** No line feed, and no quote at either end. */
  predicate WellFormed(pin: string) {
    OneLine(pin) && (pin != "" ==> pin[0] != '"' && pin[|pin| - 1] != '"')
  }

  lemma {:induction false} IndentIsTrimmed(k: nat, s: string)
    requires s != "" && !IsWhitespace(s[0])
    ensures TrimStart(seq(k, _ => ' ') + s, IsWhitespace) == s
  {
    var spaces := seq(k, _ => ' ');
    if k == 0 {
      assert spaces + s == s;
    } else {
      assert (spaces + s)[1..] == seq(k - 1, _ => ' ') + s;
      IndentIsTrimmed(k - 1, s);
    }
  }

  lemma EntryLineIsTrimmed(pin: string)
    ensures Trim(EntryLine(pin)) == "\"" + pin + "\","
  {
    var s := "\"" + pin + "\",";
    assert ENTRY_INDENT == seq(4, _ => ' ');
    assert EntryLine(pin) == ENTRY_INDENT + s;
    IndentIsTrimmed(4, s);
    TrimEndShape(s, IsWhitespace);
  }

  lemma PinOfEntryLine(pin: string)
    requires WellFormed(pin)
    ensures IsEntry(Trim(EntryLine(pin))) && PinOf(Trim(EntryLine(pin))) == pin
  {
    EntryLineIsTrimmed(pin);
    var quoted := "\"" + pin + "\"";
    var s := quoted + ",";
    assert s == "\"" + pin + "\",";
    assert s[..|s| - 1] == quoted;
    TrimEndShape(quoted, IsComma);
    assert TrimEnd(s, IsComma) == quoted;
    QuotesAreTrimmed(pin);
  }

  lemma QuotesAreTrimmed(pin: string)
    requires WellFormed(pin)
    ensures TrimEnd(TrimStart("\"" + pin + "\"", IsQuote), IsQuote) == pin
  {
    var quoted := "\"" + pin + "\"";
    var open := pin + "\"";
    assert quoted[1..] == open;
    if pin == "" {
      assert open == "\"" && open[1..] == "";
      assert TrimStart(open, IsQuote) == "";
    } else {
      TrimStartShape(open, IsQuote);
      assert open[..|open| - 1] == pin;
      TrimEndShape(pin, IsQuote);
    }
  }

  /** The reader only ever returns well-formed pins. */
  lemma PinsAreWellFormed(entries: string)
    ensures forall pin <- PinsIn(entries) :: WellFormed(pin)
  {
    var lines := Lines(entries);
    forall pin | pin in PinsIn(entries) ensures WellFormed(pin) {
      var i :| 0 <= i < |lines| && IsEntry(Trim(lines[i])) && PinOf(Trim(lines[i])) == pin;
      TrimmedPinIsWellFormed(lines[i]);
    }
  }

  lemma TrimmedPinIsWellFormed(line: string)
    requires OneLine(line)
    ensures WellFormed(PinOf(Trim(line)))
  {
    var a := TrimStart(line, IsWhitespace);
    var b := TrimEnd(a, IsWhitespace);
    var c := TrimEnd(b, IsComma);
    var d := TrimStart(c, IsQuote);
    var e := TrimEnd(d, IsQuote);
    hide TrimStart, TrimEnd, OneLine;
    TrimKeepsOneLine(line, IsWhitespace);
    TrimKeepsOneLine(a, IsWhitespace);
    TrimKeepsOneLine(b, IsComma);
    TrimKeepsOneLine(c, IsQuote);
    TrimKeepsOneLine(d, IsQuote);
    TrimStartShape(c, IsQuote);
    TrimEndShape(d, IsQuote);
    assert e != "" ==> e[0] == d[0];
  }

  lemma TrimKeepsOneLine(s: string, drop: char -> bool)
    requires OneLine(s)
    ensures OneLine(TrimStart(s, drop)) && OneLine(TrimEnd(s, drop))
  {
    TrimStartShape(s, drop);
    TrimEndShape(s, drop);
    StretchIsOneLine(s, |s| - |TrimStart(s, drop)|, |s|);
    StretchIsOneLine(s, 0, |TrimEnd(s, drop)|);
  }

  lemma StretchIsOneLine(s: string, i: nat, j: nat)
    requires OneLine(s) && i <= j <= |s|
    ensures OneLine(s[i..j])
  {}

  lemma InOrderListsThePins(pins: set<string>)
    ensures forall pin :: pin in InOrder(pins) <==> pin in pins
  {
    LexIsAnOrder();
    SortedListsTheSet(LexLess, pins);
  }

  lemma WrittenListIsIndented(pins: set<string>)
    requires forall pin <- pins :: OneLine(pin)
    ensures Indented(EntryLines(InOrder(pins)))
  {
    InOrderListsThePins(pins);
    var order := InOrder(pins);
    var lines := EntryLines(order);
    forall i | 0 <= i < |lines| ensures OneLine(lines[i]) && HasPrefix(lines[i], ENTRY_INDENT) && lines[i][|lines[i]| - 1] == ',' {
      assert order[i] in pins;
    }
  }

  /** The written text has the same surroundings and the new list between them. */
  lemma RewriteReplacesOnlyTheList(manifest: string, pins: set<string>)
    requires ListIn(manifest).Ok? && forall pin <- pins :: OneLine(pin)
    ensures Rewrite(manifest, pins).Ok?
    ensures ListIn(Rewrite(manifest, pins).value)
      == Ok((ListIn(manifest).value.0, Body(EntryLines(InOrder(pins))), ListIn(manifest).value.2))
  {
    var (head, _, tail) := ListIn(manifest).value;
    var lines := EntryLines(InOrder(pins));
    WrittenListIsIndented(pins);
    JoinIsBody(lines);
    var rest := Body(lines) + CLOSING + tail;
    var text := Rewrite(manifest, pins).value;
    assert text == head + LIST_OPENING + rest;
    SplitOnceIgnoresTheRest(manifest, LIST_OPENING, rest);
    ClosingIsFirstAfterBody(lines, tail);
  }

  lemma PinsInBody(pins: set<string>)
    requires forall pin <- pins :: WellFormed(pin)
    ensures PinsIn(Body(EntryLines(InOrder(pins)))) == pins
  {
    var order := InOrder(pins);
    var lines := Lines(Body(EntryLines(order)));
    InOrderListsThePins(pins);
    WrittenListIsIndented(pins);
    LinesOfBody(EntryLines(order));
    assert Trim(lines[0]) == "";
    forall i | 0 < i < |lines| ensures IsEntry(Trim(lines[i])) && PinOf(Trim(lines[i])) == order[i - 1] && order[i - 1] in pins {
      PinOfEntryLine(order[i - 1]);
    }
    forall pin | pin in pins ensures pin in PinsIn(Body(EntryLines(order))) {
      var k :| 0 <= k < |order| && order[k] == pin;
      assert PinOf(Trim(lines[k + 1])) == pin;
    }
  }

  /** Reading back what was written gives the set that was written, for exactly
      the sets of well-formed pins. */
  lemma RoundTripExactly(manifest: string, pins: set<string>)
    requires ListIn(manifest).Ok?
    ensures ParsePins(Rewrite(manifest, pins).value) == Ok(pins) <==> forall pin <- pins :: WellFormed(pin)
  {
    var text := Rewrite(manifest, pins).value;
    if ParsePins(text) == Ok(pins) { PinsAreWellFormed(ListIn(text).value.1); }
    if forall pin <- pins :: WellFormed(pin) {
      RewriteReplacesOnlyTheList(manifest, pins);
      PinsInBody(pins);
    }
  }

  /** Writing the same set again changes no byte, the empty set included. */
  lemma RewriteIsIdempotent(manifest: string, pins: set<string>)
    requires ListIn(manifest).Ok? && forall pin <- pins :: OneLine(pin)
    ensures Rewrite(Rewrite(manifest, pins).value, pins) == Rewrite(manifest, pins)
  {
    RewriteReplacesOnlyTheList(manifest, pins);
  }

  /** The writer fails exactly when the reader does, for the same reason. */
  lemma WriterAndReaderFailTogether(manifest: string, pins: set<string>)
    ensures Rewrite(manifest, pins).Err? <==> ParsePins(manifest).Err?
    ensures Rewrite(manifest, pins).Err? ==> Rewrite(manifest, pins).error == ParsePins(manifest).error
  {}
}
