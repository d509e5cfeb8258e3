/**
 * The readers that take a number and a unit out of the text of a source field.
 */
module Normalization {
  import opened Wrappers
  import opened Text

  // -------------------------------------------------------------- readers

  predicate IsLetter(c: char) { 'a' <= c <= 'z' || 'A' <= c <= 'Z' }

  function Lower(s: string): string {
    seq(|s|, i requires 0 <= i < |s| => if 'A' <= s[i] <= 'Z' then s[i] + (32 as char) else s[i])
  }

  function Upper(s: string): string {
    seq(|s|, i requires 0 <= i < |s| => if 'a' <= s[i] <= 'z' then s[i] - (32 as char) else s[i])
  }

  /** The spellings by which the source says that it has no value. */
  predicate SaysNothing(value: string) {
    || value == ""
    || HasPrefix(Lower(value), "none")
    || Lower(value) in ["n/a", "-", "--"]
  }

  /** `parse_sentinel` */
  function Sentinel(raw: string): Option<string> {
    var value := Trim(raw);
    if SaysNothing(value) then None else Some(value)
  }

  function Without(s: string, c: char): string {
    if s == "" then "" else (if s[0] == c then "" else [s[0]]) + Without(s[1..], c)
  }

  function Cleaned(value: string): string {
    Without(TrimStart(value, c => c == '$'), ',')
  }

  predicate Accepted(s: string, i: nat)
    requires i < |s|
  {
    IsDigit(s[i]) || s[i] == '.' || (i == 0 && s[i] == '-')
  }

  predicate AllAccepted(s: string) { forall i :: 0 <= i < |s| ==> Accepted(s, i) }

  /** `prefix` is as long as `-?[0-9.]*` can match from the start of `s`. */
  predicate IsMaximalMatch(prefix: string, s: string) {
    && HasPrefix(s, prefix)
    && AllAccepted(prefix)
    && (|prefix| < |s| ==> !AllAccepted(s[..|prefix| + 1]))
  }

  function Unsigned(s: string): string { if HasPrefix(s, "-") then s[1..] else s }

  /** An optional sign, at least one digit and at most one point. */
  predicate IsDecimal(s: string) {
    var u := Unsigned(s);
    && (forall i :: 0 <= i < |u| ==> IsDigit(u[i]) || u[i] == '.')
    && HasDigit(u)
    && AtMostOnePoint(u)
  }

  predicate HasDigit(s: string) { exists i :: 0 <= i < |s| && IsDigit(s[i]) }

  predicate AtMostOnePoint(s: string) {
    forall i, j :: 0 <= i < j < |s| && s[i] == '.' ==> s[j] != '.'
  }

  /** What the code asks of the pieces between the points. */
  predicate WellFormed(s: string) {
    var parts := Split(Unsigned(s), '.');
    && |parts| <= 2
    && (parts[0] != "" || (|parts| == 2 && parts[1] != ""))
    && AllDigits(parts[0])
    && (|parts| == 2 ==> AllDigits(parts[1]))
  }

  /** The specification of `parse_numeric`. */
  ghost predicate IsNumericOf(raw: string, result: Option<string>) {
    match result
    case Some(n) => Sentinel(raw).Some? && IsMaximalMatch(n, Cleaned(Sentinel(raw).value)) && IsDecimal(n)
    case None => Sentinel(raw).Some? ==> forall n :: IsMaximalMatch(n, Cleaned(Sentinel(raw).value)) ==> !IsDecimal(n)
  }

  function ScanEnd(s: string, from: nat): (end: nat)
    requires from <= |s|
    requires forall i :: 0 <= i < from ==> Accepted(s, i)
    ensures end <= |s|
    ensures forall i :: 0 <= i < end ==> Accepted(s, i)
    ensures end < |s| ==> !Accepted(s, end)
    decreases |s| - from
  {
    if from < |s| && Accepted(s, from) then ScanEnd(s, from + 1) else from
  }

  function Numeric(raw: string): Option<string> {
    match Sentinel(raw)
    case None => None
    case Some(value) =>
      var cleaned := Cleaned(value);
      var scanned := cleaned[..ScanEnd(cleaned, 0)];
      if WellFormed(scanned) then Some(scanned) else None
  }

  lemma TheMatchIsUnique(a: string, b: string, s: string)
    requires IsMaximalMatch(a, s) && IsMaximalMatch(b, s)
    ensures a == b
  {
    LongerIsRefused(a, b, s);
    LongerIsRefused(b, a, s);
  }

  lemma LongerIsRefused(a: string, b: string, s: string)
    requires IsMaximalMatch(a, s) && IsMaximalMatch(b, s)
    ensures |b| <= |a|
  {
    if |a| < |b| {
      var longer := s[..|a| + 1];
      forall i | 0 <= i < |longer| ensures Accepted(longer, i) {
        assert s[..|b|] == b && longer[i] == b[i];
        assert Accepted(b, i);
      }
    }
  }

  lemma ScanIsMaximal(s: string)
    ensures IsMaximalMatch(s[..ScanEnd(s, 0)], s)
  {
    var end := ScanEnd(s, 0);
    forall i | 0 <= i < end ensures Accepted(s[..end], i) { assert Accepted(s, i); }
    if end < |s| { assert !Accepted(s[..end + 1], end); }
  }

  /** What is returned is the longest numeric prefix, and it is returned exactly
      when it is a decimal. */
  lemma NumericIsTheMaximalDecimal(raw: string)
    ensures IsNumericOf(raw, Numeric(raw))
  {
    if Sentinel(raw).Some? {
      var cleaned := Cleaned(Sentinel(raw).value);
      var scanned := cleaned[..ScanEnd(cleaned, 0)];
      ScanIsMaximal(cleaned);
      WellFormedIsDecimal(scanned);
      forall n | IsMaximalMatch(n, cleaned) ensures n == scanned { TheMatchIsUnique(n, scanned, cleaned); }
    }
  }

  /** The `for` loop that stops at the first character it cannot take. */
  method ParseNumeric(raw: string) returns (result: Option<string>)
    ensures result == Numeric(raw) && IsNumericOf(raw, result)
  {
    hide WellFormed, IsNumericOf;
    NumericIsTheMaximalDecimal(raw);
    if Sentinel(raw).None? { return None; }
    var cleaned := Cleaned(Sentinel(raw).value);
    var output := "";
    var index := 0;
    while index < |cleaned|
      invariant index <= |cleaned| && output == cleaned[..index]
      invariant forall i :: 0 <= i < index ==> Accepted(cleaned, i)
    {
      if IsDigit(cleaned[index]) || cleaned[index] == '.' || (index == 0 && cleaned[index] == '-') {
        output := output + [cleaned[index]];
      } else {
        break;
      }
      index := index + 1;
    }
    ScanEndsAt(cleaned, index);
    result := if WellFormed(output) then Some(output) else None;
  }

  lemma ScanEndsAt(s: string, end: nat)
    requires end <= |s| && (forall i :: 0 <= i < end ==> Accepted(s, i)) && (end < |s| ==> !Accepted(s, end))
    ensures ScanEnd(s, 0) == end
  {}

  lemma WellFormedIsDecimal(s: string)
    requires AllAccepted(s)
    ensures WellFormed(s) <==> IsDecimal(s)
  {
    var u := Unsigned(s);
    assert forall i :: 0 <= i < |u| ==> IsDigit(u[i]) || u[i] == '.' by {
      forall i | 0 <= i < |u| ensures IsDigit(u[i]) || u[i] == '.' {
        var j := if HasPrefix(s, "-") then i + 1 else i;
        assert u[i] == s[j] && Accepted(s, j);
      }
    }
    PointsAndPieces(u);
  }

  /** The pieces of a text of digits and points, counted by the points. */
  lemma PointsAndPieces(u: string)
    requires forall i :: 0 <= i < |u| ==> IsDigit(u[i]) || u[i] == '.'
    ensures |Split(u, '.')| <= 2 <==> AtMostOnePoint(u)
    ensures var parts := Split(u, '.');
      |parts| <= 2 ==>
        && AllDigits(parts[0])
        && (|parts| == 2 ==> AllDigits(parts[1]))
        && ((parts[0] != "" || (|parts| == 2 && parts[1] != "")) <==> HasDigit(u))
  {
    hide Split;
    if '.' !in u {
      SplitWithout(u, '.');
      assert u != "" ==> IsDigit(u[0]);
    } else {
      var k :| 0 <= k < |u| && u[k] == '.' && '.' !in u[..k] by { FirstOf(u, '.'); }
      var rest := u[k + 1..];
      SplitAround(u, '.', k);
      assert forall i :: k < i < |u| ==> u[i] == rest[i - k - 1];
      assert forall i :: 0 <= i < |rest| ==> rest[i] == u[k + 1 + i];
      assert forall i :: 0 <= i < k ==> u[i] == u[..k][i];
      if '.' in rest {
        if |Split(rest, '.')| == 1 { SplitLosesNothing(rest, '.'); }
      } else {
        SplitWithout(rest, '.');
        assert k > 0 ==> IsDigit(u[0]);
        assert rest != "" ==> IsDigit(u[k + 1]);
      }
    }
  }

  lemma {:induction false} FirstOf(s: string, c: char)
    requires c in s
    ensures exists k :: 0 <= k < |s| && s[k] == c && c !in s[..k]
  {
    if s[0] == c {
      assert c !in s[..0];
    } else {
      FirstOf(s[1..], c);
      var k :| 0 <= k < |s[1..]| && s[1..][k] == c && c !in s[1..][..k];
      assert s[..k + 1] == [s[0]] + s[1..][..k];
      assert s[k + 1] == c;
    }
  }

  lemma SplitWithout(s: string, c: char)
    requires c !in s
    ensures Split(s, c) == [s]
  {
    SplitAtTheFirst(s, "", c);
    assert s + "" == s;
  }

  lemma SplitAround(s: string, c: char, k: nat)
    requires k < |s| && s[k] == c && c !in s[..k]
    ensures Split(s, c) == [s[..k]] + Split(s[k + 1..], c)
  {
    SplitAtTheFirst(s[..k], s[k..], c);
    assert s[..k] + s[k..] == s && s[k..][1..] == s[k + 1..];
  }

  // ---------------------------------------------------------- idempotence

  lemma {:induction false} WithoutChangesNothing(s: string, c: char)
    requires c !in s
    ensures Without(s, c) == s
  {
    if s != "" {
      WithoutChangesNothing(s[1..], c);
      assert s == [s[0]] + s[1..];
    }
  }

  lemma DecimalSaysSomething(n: string)
    requires AllAccepted(n) && IsDecimal(n)
    ensures n != "" && !SaysNothing(n)
  {
    var u := Unsigned(n);
    var k :| 0 <= k < |u| && IsDigit(u[k]);
    var at := if HasPrefix(n, "-") then k + 1 else k;
    assert Lower(n)[at] == n[at] == u[k];
    assert Accepted(n, 0) && Lower(n)[0] == n[0];
    PrefixSharesTheFirst(Lower(n), "none");
    assert n == "-" ==> u == "";
  }

  /** A decimal has no surrounding space, says something, and is already clean. */
  lemma DecimalIsClean(n: string)
    requires AllAccepted(n) && IsDecimal(n)
    ensures Sentinel(n) == Some(n) && Cleaned(n) == n
  {
    hide IsDecimal, SaysNothing;
    DecimalSaysSomething(n);
    forall i | 0 <= i < |n| ensures !IsWhitespace(n[i]) && n[i] != '$' && n[i] != ',' { assert Accepted(n, i); }
    TrimStartShape(n, IsWhitespace);
    TrimEndShape(n, IsWhitespace);
    TrimStartShape(n, c => c == '$');
    WithoutChangesNothing(n, ',');
  }

  lemma NumericIsIdempotent(raw: string)
    requires Numeric(raw).Some?
    ensures Numeric(Numeric(raw).value) == Numeric(raw)
  {
    hide IsDecimal, Cleaned, Sentinel;
    var n := Numeric(raw).value;
    NumericIsTheMaximalDecimal(raw);
    DecimalIsClean(n);
    NumericIsTheMaximalDecimal(n);
    assert IsMaximalMatch(n, n) by { assert n[..|n|] == n; }
    if Numeric(n).Some? { TheMatchIsUnique(n, Numeric(n).value, n); }
  }

  // ---------------------------------------------------------------- units

  /** The text after the last whitespace. */
  function LastWord(s: string): string {
    if s == "" || IsWhitespace(s[|s| - 1]) then "" else LastWord(s[..|s| - 1]) + [s[|s| - 1]]
  }

  function LetterSpan(word: string): string {
    TrimEnd(TrimStart(word, c => !IsLetter(c)), c => !IsLetter(c))
  }

  /** `parse_unit`: the letters of the last word, without what surrounds them. */
  function UnitText(raw: string): Option<string> {
    match Sentinel(raw)
    case None => None
    case Some(value) =>
      var token := LetterSpan(LastWord(value));
      if token == "" then None else Some(Upper(token))
  }

  ghost predicate SpansTheLetters(word: string, i: int, j: int) {
    && 0 <= i < j <= |word|
    && IsLetter(word[i]) && IsLetter(word[j - 1])
    && forall k :: 0 <= k < |word| && IsLetter(word[k]) ==> i <= k < j
  }

  lemma {:induction false} LastWordFollowsSpace(front: string, word: string)
    requires front == "" || IsWhitespace(front[|front| - 1])
    requires forall i :: 0 <= i < |word| ==> !IsWhitespace(word[i])
    ensures LastWord(front + word) == word
  {
    if word == "" {
      assert front + word == front;
    } else {
      var n := |word| - 1;
      LastWordFollowsSpace(front, word[..n]);
      assert (front + word)[..|front| + n] == front + word[..n];
      assert word[..n] + [word[n]] == word;
    }
  }

  lemma SpanStart(word: string)
    ensures var drop := c => !IsLetter(c);
      var tail := TrimStart(word, drop);
      && |tail| <= |word| && tail == word[|word| - |tail|..]
      && (tail != "" ==> IsLetter(tail[0]))
      && forall k :: 0 <= k < |word| && IsLetter(word[k]) ==> |word| - |tail| <= k
  {
    var drop := c => !IsLetter(c);
    TrimStartShape(word, drop);
    forall k | 0 <= k < |word| && IsLetter(word[k]) ensures |word| - |TrimStart(word, drop)| <= k {
      assert !drop(word[k]);
    }
  }

  lemma SpanEnd(tail: string)
    ensures var drop := c => !IsLetter(c);
      var token := TrimEnd(tail, drop);
      && |token| <= |tail| && token == tail[..|token|]
      && (token != "" ==> IsLetter(token[|token| - 1]))
      && forall k :: 0 <= k < |tail| && IsLetter(tail[k]) ==> k < |token|
  {
    var drop := c => !IsLetter(c);
    TrimEndShape(tail, drop);
    forall k | 0 <= k < |tail| && IsLetter(tail[k]) ensures k < |TrimEnd(tail, drop)| {
      assert !drop(tail[k]);
    }
  }

  lemma LetterSpanShape(word: string)
    ensures LetterSpan(word) == "" ==> forall k :: 0 <= k < |word| ==> !IsLetter(word[k])
    ensures LetterSpan(word) != "" ==> exists i, j :: SpansTheLetters(word, i, j) && LetterSpan(word) == word[i..j]
  {
    hide IsLetter;
    var drop := c => !IsLetter(c);
    var tail := TrimStart(word, drop);
    var token := TrimEnd(tail, drop);
    SpanStart(word);
    SpanEnd(tail);
    var from := |word| - |tail|;
    assert token == word[from..from + |token|];
    forall k | 0 <= k < |word| && IsLetter(word[k]) ensures from <= k < from + |token| {
      assert tail[k - from] == word[k];
    }
    if token != "" {
      assert tail[0] == token[0] == word[from] && token[|token| - 1] == word[from + |token| - 1];
      assert SpansTheLetters(word, from, from + |token|);
    }
  }

  lemma SpanIsUnique(word: string, i: int, j: int, m: int, n: int)
    requires SpansTheLetters(word, i, j) && SpansTheLetters(word, m, n)
    ensures i == m && j == n
  {}

  /** A value has a unit exactly when its last word has a letter, and the unit
      reaches from the first letter of that word to its last. */
  lemma UnitIsTheLastWord(raw: string, front: string, word: string)
    requires Sentinel(raw) == Some(front + word) && word != ""
    requires front == "" || IsWhitespace(front[|front| - 1])
    requires forall i :: 0 <= i < |word| ==> !IsWhitespace(word[i])
    ensures UnitText(raw).None? <==> forall k :: 0 <= k < |word| ==> !IsLetter(word[k])
    ensures UnitText(raw).Some? ==> exists i, j :: SpansTheLetters(word, i, j)
    ensures forall i, j :: SpansTheLetters(word, i, j) ==> UnitText(raw) == Some(Upper(word[i..j]))
  {
    hide LetterSpan, IsLetter, IsWhitespace, Upper, Sentinel;
    LastWordFollowsSpace(front, word);
    LetterSpanShape(word);
    if LetterSpan(word) != "" {
      var m, n :| SpansTheLetters(word, m, n) && LetterSpan(word) == word[m..n];
      assert IsLetter(word[m]);
      forall i, j | SpansTheLetters(word, i, j) ensures i == m && j == n { SpanIsUnique(word, i, j, m, n); }
    }
  }
}
