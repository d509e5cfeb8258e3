/** Scrubbing digests out of diagnostics: one pass with a run buffer. */
module Redaction {
  const REDACTED_HEX_RUN := 32
  const REDACTED := "[REDACTED]"

  predicate IsHexDigit(c: char) { '0' <= c <= '9' || 'a' <= c <= 'f' || 'A' <= c <= 'F' }

  predicate AllHex(s: string) { forall i :: 0 <= i < |s| ==> IsHexDigit(s[i]) }

  /** The length of the hexadecimal run a text opens with. */
  function RunLength(s: string): (n: nat)
    ensures n <= |s| && AllHex(s[..n]) && (n < |s| ==> !IsHexDigit(s[n]))
  {
    if s == "" || !IsHexDigit(s[0]) then 0
    else
      var n := RunLength(s[1..]);
      assert forall i :: 0 < i < n + 1 ==> s[i] == s[1..][..n][i - 1];
      n + 1
  }

  function Flushed(run: string): string {
    if |run| >= REDACTED_HEX_RUN then REDACTED else run
  }

  /** The specification: each maximal run judged by its own length. */
  function Redacted(s: string): string {
    if s == "" then ""
    else
      var n := RunLength(s);
      if n == 0 then [s[0]] + Redacted(s[1..]) else Flushed(s[..n]) + Redacted(s[n..])
  }

  method RedactDigestRuns(message: string) returns (output: string)
    ensures output == Redacted(message)
  {
    hide Redacted;
    output := "";
    var run := "";
    var i := 0;
    assert output + Redacted(run + message[i..]) == Redacted(message) by { assert run + message[i..] == message; }
    while i < |message|
      invariant i <= |message| && AllHex(run)
      invariant output + Redacted(run + message[i..]) == Redacted(message)
    {
      var c := message[i];
      var rest := message[i..];
      assert rest == [c] + message[i + 1..];
      if IsHexDigit(c) {
        assert run + rest == run + [c] + message[i + 1..];
        run := run + [c];
      } else {
        RunEndsHere(run, rest);
        output := output + Flushed(run);
        run := "";
        output := output + [c];
        assert run + message[i + 1..] == message[i + 1..];
      }
      i := i + 1;
    }
    RunEndsHere(run, "");
    assert run + message[i..] == run + "" && Redacted("") == "";
    output := output + Flushed(run);
  }

  /** A buffered run followed by something else is a maximal run. */
  lemma RunEndsHere(run: string, rest: string)
    requires AllHex(run) && (rest == "" || !IsHexDigit(rest[0]))
    ensures Redacted(run + rest) == Flushed(run) + Redacted(rest)
    ensures rest != "" ==> Redacted(rest) == [rest[0]] + Redacted(rest[1..])
    ensures Redacted("") == ""
  {
    var s := run + rest;
    if run == "" {
      assert s == rest;
    } else {
      assert forall i :: 0 <= i < |run| ==> s[i] == run[i];
      assert s[|run|..] == rest;
      assert RunLength(s) == |run|;
      assert s[..|run|] == run;
    }
  }

  /** Thirty-two hexadecimal digits in a row, starting at `i`. */
  predicate LongRunAt(s: string, i: nat) {
    i + REDACTED_HEX_RUN <= |s| && forall k :: i <= k < i + REDACTED_HEX_RUN ==> IsHexDigit(s[k])
  }

  predicate HasLongRun(s: string) {
    exists i :: 0 <= i <= |s| && LongRunAt(s, i)
  }

  /** A short piece followed by a break adds no long run. */
  lemma ShortPieceHidesNothing(piece: string, rest: string)
    requires |piece| < REDACTED_HEX_RUN && (rest == "" || !IsHexDigit(rest[0]))
    ensures HasLongRun(piece + rest) <==> HasLongRun(rest)
  {
    var s := piece + rest;
    if HasLongRun(s) {
      var i :| 0 <= i <= |s| && LongRunAt(s, i);
      assert rest != "" && s[|piece|] == rest[0] && !IsHexDigit(s[|piece|]);
      assert i > |piece|;
      assert forall k :: 0 <= k < |rest| ==> rest[k] == s[k + |piece|];
      assert LongRunAt(rest, i - |piece|);
    }
    if HasLongRun(rest) {
      var i :| 0 <= i <= |rest| && LongRunAt(rest, i);
      assert forall k :: 0 <= k < |rest| ==> rest[k] == s[k + |piece|];
      assert LongRunAt(s, i + |piece|);
    }
  }

  lemma {:induction false} RedactedHasNoLongRun(s: string)
    ensures !HasLongRun(Redacted(s))
    ensures s != "" && !IsHexDigit(s[0]) ==> Redacted(s) != "" && Redacted(s)[0] == s[0]
    decreases |s|
  {
    if s != "" {
      var n := RunLength(s);
      var piece, rest := if n == 0 then [s[0]] else Flushed(s[..n]), s[if n == 0 then 1 else n..];
      RedactedHasNoLongRun(rest);
      if n == 0 {
        BreakHidesNothing(s[0], Redacted(rest));
      } else {
        assert rest != "" ==> rest[0] == s[n];
        assert rest == "" ==> Redacted(rest) == "";
        ShortPieceHidesNothing(piece, Redacted(rest));
      }
    }
  }

  lemma BreakHidesNothing(c: char, rest: string)
    requires !IsHexDigit(c)
    ensures HasLongRun([c] + rest) <==> HasLongRun(rest)
  {
    var s := [c] + rest;
    if HasLongRun(s) {
      var i :| 0 <= i <= |s| && LongRunAt(s, i);
      assert s[0] == c && !IsHexDigit(s[0]);
      assert i > 0;
      assert forall k :: 0 <= k < |rest| ==> rest[k] == s[k + 1];
      assert LongRunAt(rest, i - 1);
    }
    if HasLongRun(rest) {
      var i :| 0 <= i <= |rest| && LongRunAt(rest, i);
      assert LongRunAt(s, i + 1);
    }
  }

  lemma LongOpeningIsLong(s: string)
    ensures RunLength(s) >= REDACTED_HEX_RUN ==> HasLongRun(s)
  {
    var n := RunLength(s);
    assert forall k :: 0 <= k < n ==> s[k] == s[..n][k];
    assert n >= REDACTED_HEX_RUN ==> LongRunAt(s, 0);
  }

  lemma {:induction false} ShortRunsSurvive(s: string)
    requires !HasLongRun(s)
    ensures Redacted(s) == s
    decreases |s|
  {
    if s != "" {
      var n := RunLength(s);
      if n == 0 {
        assert s == [s[0]] + s[1..];
        BreakHidesNothing(s[0], s[1..]);
        ShortRunsSurvive(s[1..]);
      } else {
        LongOpeningIsLong(s);
        assert s == s[..n] + s[n..];
        ShortPieceHidesNothing(s[..n], s[n..]);
        ShortRunsSurvive(s[n..]);
      }
    }
  }

  /** The scrubbed text holds no long run, is a fixed point, and is the message
      itself for exactly the messages that held none. */
  lemma RedactionIsExact(s: string)
    ensures !HasLongRun(Redacted(s))
    ensures Redacted(s) == s <==> !HasLongRun(s)
    ensures Redacted(Redacted(s)) == Redacted(s)
  {
    RedactedHasNoLongRun(s);
    ShortRunsSurvive(Redacted(s));
    if !HasLongRun(s) { ShortRunsSurvive(s); }
  }

  // ------------------------------------------------ run by run, exactly

  /** Where a text can be cut without cutting a run. */
  predicate BetweenRuns(a: string, b: string) {
    a == "" || b == "" || !IsHexDigit(a[|a| - 1]) || !IsHexDigit(b[0])
  }

  /** The first piece of a text: a whole run, or one other character. */
  function FirstPiece(s: string): (n: nat)
    requires s != ""
    ensures 1 <= n <= |s|
  {
    if RunLength(s) == 0 then 1 else RunLength(s)
  }

  function Scrubbed(piece: string): string { if AllHex(piece) then Flushed(piece) else piece }

  lemma OnePiece(s: string)
    requires s != ""
    ensures Redacted(s) == Scrubbed(s[..FirstPiece(s)]) + Redacted(s[FirstPiece(s)..])
  {
    if RunLength(s) == 0 { assert s[..1] == [s[0]] && !IsHexDigit(s[..1][0]); }
  }

  lemma SamePiece(a: string, b: string)
    requires BetweenRuns(a, b) && a != ""
    ensures FirstPiece(a + b) == FirstPiece(a)
    ensures BetweenRuns(a[FirstPiece(a)..], b)
    ensures (a + b)[..FirstPiece(a)] == a[..FirstPiece(a)] && (a + b)[FirstPiece(a)..] == a[FirstPiece(a)..] + b
  {
    RunGoesNoFurther(a, b);
  }

  lemma OneMorePiece(a: string, b: string)
    requires BetweenRuns(a, b) && a != ""
    requires Redacted(a[FirstPiece(a)..] + b) == Redacted(a[FirstPiece(a)..]) + Redacted(b)
    ensures Redacted(a + b) == Redacted(a) + Redacted(b)
  {
    hide Redacted, Scrubbed, BetweenRuns, FirstPiece;
    OnePiece(a);
    OnePiece(a + b);
    SamePiece(a, b);
    Regrouped(Scrubbed(a[..FirstPiece(a)]), Redacted(a[FirstPiece(a)..]), Redacted(b));
  }

  lemma Regrouped(x: string, y: string, z: string)
    ensures x + (y + z) == x + y + z
  {}

  lemma NothingFirst(b: string)
    ensures Redacted("" + b) == Redacted("") + Redacted(b)
  {
    assert "" + b == b && Redacted("") == "" && "" + Redacted(b) == Redacted(b);
  }

  /** The two sides of such a cut are scrubbed apart. */
  lemma {:induction false} RedactedApart(a: string, b: string)
    requires BetweenRuns(a, b)
    ensures Redacted(a + b) == Redacted(a) + Redacted(b)
    decreases |a|
  {
    hide Redacted, BetweenRuns;
    if a == "" {
      NothingFirst(b);
    } else {
      SamePiece(a, b);
      RedactedApart(a[FirstPiece(a)..], b);
      OneMorePiece(a, b);
    }
  }

  lemma RunGoesNoFurther(a: string, b: string)
    requires BetweenRuns(a, b) && a != ""
    ensures RunLength(a + b) == RunLength(a)
  {
    var n, m := RunLength(a), RunLength(a + b);
    assert forall i :: 0 <= i < |a| ==> (a + b)[i] == a[i];
    assert forall i :: 0 <= i < n ==> a[i] == a[..n][i];
    assert forall i :: 0 <= i < m ==> (a + b)[i] == (a + b)[..m][i];
    assert n == |a| && b != "" ==> (a + b)[|a|] == b[0] && a[|a| - 1] == a[..n][|a| - 1];
  }

  lemma WholeRun(run: string)
    requires run != "" && AllHex(run)
    ensures Redacted(run) == Flushed(run)
  {
    RunEndsHere(run, "");
    assert run + "" == run && Flushed(run) + "" == Flushed(run);
  }

  /** A run of thirty-two digits or more, from end to end, becomes the marker: no
      digit of it is kept. A shorter one is kept whole. Neither touches the rest. */
  lemma EachRunIsJudgedAlone(a: string, run: string, b: string)
    requires run != "" && AllHex(run)
    requires a == "" || !IsHexDigit(a[|a| - 1])
    requires b == "" || !IsHexDigit(b[0])
    ensures Redacted(a + run + b) == Redacted(a) + (if |run| >= 32 then "[REDACTED]" else run) + Redacted(b)
  {
    RedactedApart(a, run);
    RedactedApart(a + run, b);
    WholeRun(run);
  }

  /** Every other character is kept where it is. */
  lemma OtherCharactersAreKept(a: string, c: char, b: string)
    requires !IsHexDigit(c)
    ensures Redacted(a + [c] + b) == Redacted(a) + [c] + Redacted(b)
  {
    RedactedApart(a, [c]);
    RedactedApart(a + [c], b);
    assert [c][1..] == "" && [c] + "" == [c];
  }

  lemma HexDigitsAreThese(c: char)
    ensures IsHexDigit(c) <==> c in "0123456789abcdefABCDEF"
  {}
}
