/**
 * The string operations of the Rust standard library that the repository's
 * scanners are made of. A `char` is a Unicode scalar value.
 */
module Text {
  import opened Wrappers
  import opened Ordering

  /** The White_Space property. */
  predicate IsWhitespace(c: char) {
    var n := c as int;
    0x09 <= n <= 0x0D || n == 0x20 || n == 0x85 || n == 0xA0 || n == 0x1680
    || 0x2000 <= n <= 0x200A || n == 0x2028 || n == 0x2029 || n == 0x202F || n == 0x205F || n == 0x3000
  }

  // -------------------------------------------------------------- numbers

  predicate IsDigit(c: char) { '0' <= c <= '9' }

  predicate AllDigits(s: string) { forall i :: 0 <= i < |s| ==> IsDigit(s[i]) }

  function DecimalText(n: nat): string {
    (if n < 10 then "" else DecimalText(n / 10)) + ["0123456789"[n % 10]]
  }

  function DecimalValue(s: string): nat
    requires AllDigits(s)
  {
    if s == "" then 0 else DecimalValue(s[..|s| - 1]) * 10 + (s[|s| - 1] as int - '0' as int)
  }

  lemma {:induction false} DecimalRoundTrip(n: nat)
    ensures DecimalText(n) != "" && AllDigits(DecimalText(n)) && DecimalValue(DecimalText(n)) == n
  {
    var text := DecimalText(n);
    var digit := "0123456789"[n % 10];
    assert '0' <= digit <= '9' && digit as int - '0' as int == n % 10;
    if n >= 10 { DecimalRoundTrip(n / 10); }
    assert text[..|text| - 1] == if n < 10 then "" else DecimalText(n / 10);
    assert text[|text| - 1] == digit;
  }

  /** What a width in a format string does. */
  function ZeroPadded(text: string, width: nat): string
    decreases width - |text|
  {
    if |text| >= width then text else ZeroPadded("0" + text, width)
  }

  // ------------------------------------------------------------- trimming

  function TrimStart(s: string, drop: char -> bool): string {
    if s != "" && drop(s[0]) then TrimStart(s[1..], drop) else s
  }

  function TrimEnd(s: string, drop: char -> bool): string {
    if s != "" && drop(s[|s| - 1]) then TrimEnd(s[..|s| - 1], drop) else s
  }

  function Trim(s: string): string { TrimEnd(TrimStart(s, IsWhitespace), IsWhitespace) }

  predicate HasPrefix(s: string, prefix: string) {
    |prefix| <= |s| && s[..|prefix|] == prefix
  }

  lemma PrefixSharesTheFirst(s: string, prefix: string)
    requires prefix != ""
    ensures HasPrefix(s, prefix) ==> s != "" && s[0] == prefix[0]
  {}

  /** What is kept is a stretch of the text, with nothing to drop at that end. */
  lemma {:induction false} TrimStartShape(s: string, drop: char -> bool)
    ensures var t := TrimStart(s, drop);
      && |t| <= |s| && s[|s| - |t|..] == t
      && (forall i :: 0 <= i < |s| - |t| ==> drop(s[i]))
      && (t != "" ==> !drop(t[0]))
      && (s != "" && !drop(s[0]) ==> t == s)
  {
    if s != "" && drop(s[0]) { TrimStartShape(s[1..], drop); }
  }

  lemma {:induction false} TrimEndShape(s: string, drop: char -> bool)
    ensures var t := TrimEnd(s, drop);
      && |t| <= |s| && s[..|t|] == t
      && (forall i :: |t| <= i < |s| ==> drop(s[i]))
      && (t != "" ==> !drop(t[|t| - 1]))
      && (s != "" && !drop(s[|s| - 1]) ==> t == s)
  {
    if s != "" && drop(s[|s| - 1]) { TrimEndShape(s[..|s| - 1], drop); }
  }

  predicate AllDropped(s: string, drop: char -> bool) { forall i :: 0 <= i < |s| ==> drop(s[i]) }

  lemma TrimStartSplits(s: string, drop: char -> bool) returns (head: string)
    ensures s == head + TrimStart(s, drop) && AllDropped(head, drop)
    ensures TrimStart(s, drop) != "" ==> !drop(TrimStart(s, drop)[0])
  {
    TrimStartShape(s, drop);
    head := s[..|s| - |TrimStart(s, drop)|];
  }

  lemma TrimEndSplits(s: string, drop: char -> bool) returns (tail: string)
    ensures s == TrimEnd(s, drop) + tail && AllDropped(tail, drop)
    ensures TrimEnd(s, drop) != "" ==> !drop(TrimEnd(s, drop)[|TrimEnd(s, drop)| - 1])
  {
    TrimEndShape(s, drop);
    tail := s[|TrimEnd(s, drop)|..];
  }

  lemma {:induction false} TrimStartIs(head: string, kept: string, drop: char -> bool)
    requires AllDropped(head, drop) && (kept != "" ==> !drop(kept[0]))
    ensures TrimStart(head + kept, drop) == kept
  {
    if head == "" {
      assert head + kept == kept;
    } else {
      assert (head + kept)[1..] == head[1..] + kept;
      TrimStartIs(head[1..], kept, drop);
    }
  }

  lemma {:induction false} TrimEndIs(kept: string, tail: string, drop: char -> bool)
    requires AllDropped(tail, drop) && (kept != "" ==> !drop(kept[|kept| - 1]))
    ensures TrimEnd(kept + tail, drop) == kept
  {
    if tail == "" {
      assert kept + tail == kept;
    } else {
      assert (kept + tail)[..|kept| + |tail| - 1] == kept + tail[..|tail| - 1];
      TrimEndIs(kept, tail[..|tail| - 1], drop);
    }
  }

  // ------------------------------------------------------------- counting

  function CountOf(s: string, c: char): nat {
    if s == "" then 0 else CountOf(s[..|s| - 1], c) + (if s[|s| - 1] == c then 1 else 0)
  }

  lemma {:induction false} CountAdds(a: string, b: string, c: char)
    ensures CountOf(a + b, c) == CountOf(a, c) + CountOf(b, c)
  {
    if b == "" {
      assert a + b == a;
    } else {
      assert (a + b)[..|a + b| - 1] == a + b[..|b| - 1];
      CountAdds(a, b[..|b| - 1], c);
    }
  }

  lemma {:induction false} CountIsZeroExactly(s: string, c: char)
    ensures CountOf(s, c) == 0 <==> c !in s
  {
    if s != "" {
      CountIsZeroExactly(s[..|s| - 1], c);
      assert s == s[..|s| - 1] + [s[|s| - 1]];
    }
  }

  // ------------------------------------------------------------ searching

  predicate OccursAt(s: string, needle: string, i: nat) {
    i + |needle| <= |s| && s[i..i + |needle|] == needle
  }

  function FindFrom(s: string, needle: string, i: nat): (k: Option<nat>)
    ensures k.Some? ==> i <= k.value && OccursAt(s, needle, k.value) && forall j :: i <= j < k.value ==> !OccursAt(s, needle, j)
    ensures k.None? ==> forall j :: i <= j ==> !OccursAt(s, needle, j)
    decreases |s| + 1 - i
  {
    if i + |needle| > |s| then None
    else if OccursAt(s, needle, i) then Some(i)
    else FindFrom(s, needle, i + 1)
  }

  /** Around the first occurrence, if there is one. */
  function SplitOnce(s: string, needle: string): Option<(string, string)> {
    match FindFrom(s, needle, 0)
    case None => None
    case Some(k) => Some((s[..k], s[k + |needle|..]))
  }

  lemma SplitOnceAt(s: string, needle: string, k: nat)
    requires OccursAt(s, needle, k) && forall j :: 0 <= j < k ==> !OccursAt(s, needle, j)
    ensures SplitOnce(s, needle) == Some((s[..k], s[k + |needle|..]))
  {}

  /** An occurrence depends on the text it covers and on nothing after it. */
  lemma OccursInCommonPrefix(s: string, t: string, m: nat, needle: string, j: nat)
    requires m <= |s| && m <= |t| && s[..m] == t[..m] && j + |needle| <= m
    ensures OccursAt(s, needle, j) <==> OccursAt(t, needle, j)
  {
    assert s[j..j + |needle|] == s[..m][j..j + |needle|];
    assert t[j..j + |needle|] == t[..m][j..j + |needle|];
  }

  /** Replacing what follows the first occurrence leaves it the first. */
  lemma SplitOnceIgnoresTheRest(s: string, needle: string, rest: string)
    requires SplitOnce(s, needle).Some?
    ensures var head := SplitOnce(s, needle).value.0;
      s == head + needle + SplitOnce(s, needle).value.1 && SplitOnce(head + needle + rest, needle) == Some((head, rest))
  {
    var head := SplitOnce(s, needle).value.0;
    var m := |head| + |needle|;
    var t := head + needle + rest;
    assert s == s[..|head|] + s[|head|..m] + s[m..];
    assert s[..m] == t[..m] == head + needle;
    assert t[|head|..m] == needle;
    forall j | 0 <= j < |head| ensures !OccursAt(t, needle, j) {
      OccursInCommonPrefix(s, t, m, needle, j);
    }
    SplitOnceAt(t, needle, |head|);
    assert t[..|head|] == head && t[m..] == rest;
  }

  // ---------------------------------------------------------------- lines

  /** The pieces between separators; one more than there are separators. */
  function Split(s: string, c: char): (pieces: seq<string>)
    ensures pieces != []
    ensures forall i :: 0 <= i < |pieces| ==> c !in pieces[i]
  {
    if s == "" then [""]
    else
      var rest := Split(s[1..], c);
      if s[0] == c then [""] + rest else [[s[0]] + rest[0]] + rest[1..]
  }

  function WithoutReturn(line: string): string {
    if line != "" && line[|line| - 1] == '\r' then line[..|line| - 1] else line
  }

  /** Ended by a line feed or a return and a line feed; no empty last line. */
  function Lines(s: string): (lines: seq<string>)
    ensures forall i :: 0 <= i < |lines| ==> '\n' !in lines[i]
  {
    var pieces := Split(s, '\n');
    var n := |pieces| - 1;
    var ended := seq(n, i requires 0 <= i < n => WithoutReturn(pieces[i]));
    if pieces[n] == "" then ended else ended + [pieces[n]]
  }

  lemma {:induction false} SplitAtTheFirst(e: string, t: string, c: char)
    requires c !in e && (t == "" || t[0] == c)
    ensures Split(e + t, c) == [e] + Split(t, c)[1..]
  {
    if e == "" {
      assert e + t == t;
    } else {
      assert (e + t)[1..] == e[1..] + t;
      SplitAtTheFirst(e[1..], t, c);
      assert [e[0]] + e[1..] == e;
    }
  }

  /** The pieces with the separator between each two. */
  function Joined(pieces: seq<string>, c: char): string {
    if pieces == [] then "" else if |pieces| == 1 then pieces[0] else pieces[0] + ([c] + Joined(pieces[1..], c))
  }

  lemma {:induction false} SplitLosesNothing(s: string, c: char)
    ensures Joined(Split(s, c), c) == s
  {
    if s != "" {
      SplitLosesNothing(s[1..], c);
      var rest := Split(s[1..], c);
      var pieces := Split(s, c);
      assert s == [s[0]] + s[1..];
      if s[0] == c {
        assert pieces[1..] == rest;
        assert Joined(pieces, c) == "" + ([c] + Joined(rest, c)) == [c] + Joined(rest, c);
      } else {
        assert pieces[1..] == rest[1..];
        if |rest| > 1 {
          var tail := [c] + Joined(rest[1..], c);
          assert [s[0]] + (rest[0] + tail) == [s[0]] + rest[0] + tail;
        }
      }
    }
  }

  lemma {:induction false} SplitOfJoined(pieces: seq<string>, c: char)
    requires pieces != [] && forall i :: 0 <= i < |pieces| ==> c !in pieces[i]
    ensures Split(Joined(pieces, c), c) == pieces
  {
    if |pieces| == 1 {
      SplitAtTheFirst(pieces[0], "", c);
      assert pieces[0] + "" == pieces[0];
    } else {
      var rest := Joined(pieces[1..], c);
      SplitOfJoined(pieces[1..], c);
      SplitAtTheFirst(pieces[0], [c] + rest, c);
      assert ([c] + rest)[1..] == rest;
    }
  }

  // ---------------------------------------------------------------- order

  /** Byte order of UTF-8 text is the order of its scalar values. */
  predicate LexLess(a: string, b: string) {
    b != "" && (a == "" || a[0] < b[0] || (a[0] == b[0] && LexLess(a[1..], b[1..])))
  }

  lemma {:induction false} LexIsIrreflexive(a: string)
    ensures !LexLess(a, a)
  {
    if a != "" { LexIsIrreflexive(a[1..]); }
  }

  lemma {:induction false} LexIsTransitive(a: string, b: string, c: string)
    requires LexLess(a, b) && LexLess(b, c)
    ensures LexLess(a, c)
  {
    if a != "" && a[0] == b[0] == c[0] { LexIsTransitive(a[1..], b[1..], c[1..]); }
  }

  lemma {:induction false} LexIsTotal(a: string, b: string)
    requires a != b
    ensures LexLess(a, b) || LexLess(b, a)
  {
    if a != "" && b != "" && a[0] == b[0] {
      assert a == [a[0]] + a[1..] && b == [b[0]] + b[1..];
      LexIsTotal(a[1..], b[1..]);
    }
  }

  lemma LexIsAnOrder()
    ensures StrictTotalOrder(LexLess)
  {
    forall a ensures !LexLess(a, a) { LexIsIrreflexive(a); }
    forall a, b, c | LexLess(a, b) && LexLess(b, c) ensures LexLess(a, c) { LexIsTransitive(a, b, c); }
    forall a: string, b: string | a != b ensures LexLess(a, b) || LexLess(b, a) { LexIsTotal(a, b); }
  }

  // -------------------------------------------------- what the names mean

  lemma LexLessExactly(a: string, b: string)
    ensures LexLess(a, b) <==> exists k: nat :: k <= |a| && k < |b| && a[..k] == b[..k] && (k == |a| || a[k] < b[k])
  {
    if LexLess(a, b) {
      var k := FirstDifference(a, b);
    } else {
      forall k: nat | k <= |a| && k < |b| && a[..k] == b[..k] ensures !(k == |a| || a[k] < b[k]) { NotBefore(a, b, k); }
    }
  }

  lemma {:induction false} FirstDifference(a: string, b: string) returns (k: nat)
    requires LexLess(a, b)
    ensures k <= |a| && k < |b| && a[..k] == b[..k] && (k == |a| || a[k] < b[k])
  {
    if a == "" || a[0] < b[0] {
      k := 0;
    } else {
      k := FirstDifference(a[1..], b[1..]);
      assert a[..k + 1] == [a[0]] + a[1..][..k] && b[..k + 1] == [b[0]] + b[1..][..k];
      k := k + 1;
    }
  }

  lemma {:induction false} NotBefore(a: string, b: string, k: nat)
    requires !LexLess(a, b) && k <= |a| && k < |b| && a[..k] == b[..k]
    ensures k < |a| && a[k] >= b[k]
  {
    if k > 0 {
      assert a[0] == a[..k][0] && b[0] == b[..k][0];
      assert a[1..][..k - 1] == a[..k][1..] && b[1..][..k - 1] == b[..k][1..];
      NotBefore(a[1..], b[1..], k - 1);
    }
  }

  /** Trimming takes exactly the whitespace at the two ends. */
  lemma TrimExactly(s: string, t: string)
    ensures Trim(s) == t <==> exists head, tail :: IsTrimmed(s, head, t, tail)
  {
    var start := TrimStart(s, IsWhitespace);
    var head := TrimStartSplits(s, IsWhitespace);
    var tail := TrimEndSplits(start, IsWhitespace);
    hide TrimStart, TrimEnd, AllDropped;
    assert Trim(s) != "" ==> Trim(s)[0] == start[0];
    assert IsTrimmed(s, head, Trim(s), tail);
    forall head, tail | IsTrimmed(s, head, t, tail) ensures Trim(s) == t { TrimIsUnique(s, head, t, tail); }
  }

  predicate IsTrimmed(s: string, head: string, t: string, tail: string) {
    && s == head + (t + tail) && AllDropped(head, IsWhitespace) && AllDropped(tail, IsWhitespace)
    && (t != "" ==> !IsWhitespace(t[0]) && !IsWhitespace(t[|t| - 1]))
  }

  lemma TrimIsUnique(s: string, head: string, t: string, tail: string)
    requires IsTrimmed(s, head, t, tail)
    ensures Trim(s) == t
  {
    if t == "" {
      assert s + "" == s && "" + tail == tail;
      TrimStartIs(s, "", IsWhitespace);
    } else {
      TrimStartIs(head, t + tail, IsWhitespace);
      TrimEndIs(t, tail, IsWhitespace);
    }
  }

  lemma WhitespaceIsThese(c: char)
    ensures IsWhitespace(c) <==> c as int in {
      0x09, 0x0A, 0x0B, 0x0C, 0x0D, 0x20, 0x85, 0xA0, 0x1680, 0x2000, 0x2001, 0x2002, 0x2003, 0x2004, 0x2005, 0x2006, 0x2007,
      0x2008, 0x2009, 0x200A, 0x2028, 0x2029, 0x202F, 0x205F, 0x3000 }
  {}

  /** Each line with its ending, and a last one that may have none. */
  function Ended(lines: seq<string>, crlf: seq<bool>, last: string): string
    requires |crlf| == |lines|
  {
    if lines == [] then last
    else lines[0] + ((if crlf[0] then "\r\n" else "\n") + Ended(lines[1..], crlf[1..], last))
  }

  /** What stands before each line feed, and after the last. */
  function Unended(lines: seq<string>, crlf: seq<bool>, last: string): seq<string>
    requires |crlf| == |lines|
  {
    seq(|lines|, i requires 0 <= i < |lines| => lines[i] + if crlf[i] then "\r" else "") + [last]
  }

  lemma UnendedIsOneMore(lines: seq<string>, crlf: seq<bool>, last: string)
    requires |crlf| == |lines| > 0
    ensures Unended(lines, crlf, last) == [lines[0] + if crlf[0] then "\r" else ""] + Unended(lines[1..], crlf[1..], last)
    ensures Ended(lines, crlf, last) == lines[0] + (if crlf[0] then "\r" else "") + (['\n'] + Ended(lines[1..], crlf[1..], last))
  {}

  lemma {:induction false} SplitOfEnded(lines: seq<string>, crlf: seq<bool>, last: string)
    requires |crlf| == |lines| && '\n' !in last && forall i :: 0 <= i < |lines| ==> '\n' !in lines[i]
    ensures Split(Ended(lines, crlf, last), '\n') == Unended(lines, crlf, last)
  {
    if lines == [] {
      SplitAtTheFirst(last, "", '\n');
      assert last + "" == last;
    } else {
      var rest := Ended(lines[1..], crlf[1..], last);
      var first := lines[0] + (if crlf[0] then "\r" else "");
      SplitOfEnded(lines[1..], crlf[1..], last);
      UnendedIsOneMore(lines, crlf, last);
      hide Ended, Unended, Split;
      SplitAtTheFirst(first, ['\n'] + rest, '\n');
      FeedStartsAPiece(rest);
    }
  }

  lemma FeedStartsAPiece(rest: string)
    ensures Split(['\n'] + rest, '\n')[1..] == Split(rest, '\n')
  {
    assert (['\n'] + rest)[1..] == rest;
  }

  /** Lines are read back whichever way they end, and an empty last one is none. */
  lemma LinesAreRead(lines: seq<string>, crlf: seq<bool>, last: string)
    requires |crlf| == |lines| && '\n' !in last
    requires forall i :: 0 <= i < |lines| ==> '\n' !in lines[i] && (lines[i] != "" ==> lines[i][|lines[i]| - 1] != '\r')
    ensures Lines(Ended(lines, crlf, last)) == lines + (if last == "" then [] else [last])
  {
    hide Split;
    SplitOfEnded(lines, crlf, last);
    var pieces := Split(Ended(lines, crlf, last), '\n');
    forall i | 0 <= i < |lines| ensures WithoutReturn(pieces[i]) == lines[i] {
      if crlf[i] { assert (lines[i] + "\r")[..|lines[i]|] == lines[i]; } else { assert lines[i] + "" == lines[i]; }
    }
  }
}
