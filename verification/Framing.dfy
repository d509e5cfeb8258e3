/**
 * The framing both passes feed their hash: what a text of keys, each ended by a
 * NUL, says about the list of keys.
 */
module Framing {
  import opened Wrappers
  import opened Text
  import opened Hex
  import opened Ingestion

  predicate NulFree(key: string) { NUL !in key }

  predicate AllNulFree(keys: seq<string>) { forall i :: 0 <= i < |keys| ==> NulFree(keys[i]) }

  /** The keys the adapter makes contain no NUL. */
  lemma SourceRecordKeyIsNulFree(sha: Sha256, manufacturer: string, aircraft: string)
    ensures NulFree(SourceRecordKey(sha, manufacturer, aircraft))
  {
    HexShape(sha("planephd" + [NUL] + manufacturer + [NUL] + aircraft));
  }

  /** Two aircraft get one key only if the digest confuses them: a manufacturer
      without a NUL cannot run into the aircraft's name. */
  lemma SourceRecordKeysAreTheAircrafts(sha: Sha256, m: string, a: string, m': string, a': string)
    requires NulFree(m) && NulFree(m')
    requires forall x, y :: sha(x) == sha(y) ==> x == y
    ensures SourceRecordKey(sha, m, a) == SourceRecordKey(sha, m', a') <==> m == m' && a == a'
    ensures SourceRecordKey(sha, m, a) == HexOf(sha("planephd\0" + m + "\0" + a))
  {
    var x, y := "planephd\0" + m + "\0" + a, "planephd\0" + m' + "\0" + a';
    assert "planephd" + [NUL] == "planephd\0";
    if SourceRecordKey(sha, m, a) == SourceRecordKey(sha, m', a') {
      HexIsInjective(sha(x), sha(y));
      assert x[9..] == m + ("\0" + a) && y[9..] == m' + ("\0" + a');
      FirstNulIsThere(m, a);
      FirstNulIsThere(m', a');
    }
  }

  lemma FirstNulIsThere(m: string, a: string)
    requires NulFree(m)
    ensures SplitOnce(m + ("\0" + a), "\0") == Some((m, a))
  {
    var s := m + ("\0" + a);
    forall j | 0 <= j < |m| ensures !OccursAt(s, "\0", j) { assert s[j..j + 1][0] == m[j]; }
    assert s[|m|..|m| + 1] == "\0";
    SplitOnceAt(s, "\0", |m|);
    assert s[..|m|] == m && s[|m| + 1..] == a;
  }

  lemma NulBoundsTheLastKey(a: string, x: string, b: string, y: string)
    requires NulFree(x) && a + x == b + y
    requires b == "" || b[|b| - 1] == NUL
    ensures |b| <= |a|
  {
    assert forall k :: |a| <= k < |a + x| ==> (a + x)[k] == x[k - |a|];
    assert b == "" || (b + y)[|b| - 1] == NUL;
  }

  lemma LastFrame(a: string, x: string, b: string, y: string)
    requires NulFree(x) && NulFree(y)
    requires a + x + [NUL] == b + y + [NUL]
    requires (a == "" || a[|a| - 1] == NUL) && (b == "" || b[|b| - 1] == NUL)
    ensures a == b && x == y
  {
    var t := a + x + [NUL];
    assert t[..|t| - 1] == a + x == b + y;
    NulBoundsTheLastKey(a, x, b, y);
    NulBoundsTheLastKey(b, y, a, x);
    assert a == (a + x)[..|a|] && b == (b + y)[..|b|];
    assert x == (a + x)[|a|..] && y == (b + y)[|b|..];
  }

  lemma FramedEndsInNul(keys: seq<string>)
    ensures Framed(keys) == "" <==> keys == []
    ensures Framed(keys) != "" ==> Framed(keys)[|Framed(keys)| - 1] == NUL
  {}

  /** Without a NUL in any key the framed text determines the keys. */
  lemma {:induction false} FramingIsInjective(a: seq<string>, b: seq<string>)
    requires AllNulFree(a) && AllNulFree(b) && Framed(a) == Framed(b)
    ensures a == b
  {
    FramedEndsInNul(a);
    FramedEndsInNul(b);
    if a != [] {
      var m, n := |a| - 1, |b| - 1;
      FramedEndsInNul(a[..m]);
      FramedEndsInNul(b[..n]);
      LastFrame(Framed(a[..m]), a[m], Framed(b[..n]), b[n]);
      FramingIsInjective(a[..m], b[..n]);
      assert a == a[..m] + [a[m]] && b == b[..n] + [b[n]];
    }
  }

  // --------------------------------------------------- lists of one length

  /** A framing has a NUL for each key, and more exactly if some key has one. */
  lemma {:induction false} NulsOfFraming(keys: seq<string>)
    ensures CountOf(Framed(keys), NUL) >= |keys|
    ensures CountOf(Framed(keys), NUL) == |keys| <==> AllNulFree(keys)
  {
    if keys != [] {
      var n := |keys| - 1;
      NulsOfFraming(keys[..n]);
      CountIsZeroExactly(keys[n], NUL);
      CountAdds(Framed(keys[..n]), keys[n], NUL);
      CountAdds(Framed(keys[..n]) + keys[n], [NUL], NUL);
      assert CountOf([NUL], NUL) == 1 by { assert [NUL][..0] == ""; }
      assert keys == keys[..n] + [keys[n]];
    }
  }

  /** Of two lists as long as each other, only one has to be free of NULs. */
  lemma EqualLengthFraming(a: seq<string>, b: seq<string>)
    requires |a| == |b| && AllNulFree(a) && Framed(a) == Framed(b)
    ensures a == b
  {
    NulsOfFraming(a);
    NulsOfFraming(b);
    FramingIsInjective(a, b);
  }

  lemma {:induction false} FramedAppend(a: seq<string>, b: seq<string>)
    ensures Framed(a + b) == Framed(a) + Framed(b)
  {
    if b == [] {
      assert a + b == a;
    } else {
      var n := |b| - 1;
      assert (a + b)[..|a| + n] == a + b[..n];
      FramedAppend(a, b[..n]);
      assert Framed(a) + (Framed(b[..n]) + b[n] + [NUL]) == Framed(a) + Framed(b[..n]) + b[n] + [NUL];
    }
  }

  lemma FramedPair(x: string, y: string)
    ensures Framed([x, y]) == x + "\0" + y + "\0"
  {
    assert [x, y][..1] == [x] && [x][..0] == [];
    assert Framed([x]) == x + [NUL];
  }

  /** Two neighbours, one with a NUL, can be cut elsewhere. */
  lemma OtherPair(x: string, y: string) returns (x': string, y': string)
    requires !NulFree(x) || !NulFree(y)
    ensures [x', y'] != [x, y] && Framed([x', y']) == Framed([x, y])
  {
    if !NulFree(x) {
      var k :| 0 <= k < |x| && x[k] == NUL;
      x', y' := x[..k], x[k + 1..] + [NUL] + y;
      assert x == x[..k] + [NUL] + x[k + 1..];
    } else {
      var k :| 0 <= k < |y| && y[k] == NUL;
      x', y' := x + [NUL] + y[..k], y[k + 1..];
      assert y == y[..k] + [NUL] + y[k + 1..];
    }
    assert x' + [NUL] + y' == x + [NUL] + y;
    assert |x'| != |x|;
    assert [x', y'][0] != [x, y][0];
    FramedPair(x, y);
    FramedPair(x', y');
  }

  lemma CutElsewhere(a: seq<string>, k: nat) returns (b: seq<string>)
    requires k + 1 < |a| && !(NulFree(a[k]) && NulFree(a[k + 1]))
    ensures |b| == |a| && Framed(b) == Framed(a) && b != a
  {
    hide Framed, NulFree;
    var x, y := OtherPair(a[k], a[k + 1]);
    var head, tail := a[..k], a[k + 2..];
    b := head + ([x, y] + tail);
    assert a == head + ([a[k], a[k + 1]] + tail);
    FramedAppend(head, [x, y] + tail);
    FramedAppend([x, y], tail);
    FramedAppend(head, [a[k], a[k + 1]] + tail);
    FramedAppend([a[k], a[k + 1]], tail);
    assert b[k..k + 2] == [x, y] && a[k..k + 2] == [a[k], a[k + 1]];
  }

  /** With a NUL, two documents of equal length can look alike. */
  lemma FramingNeedsNulFreeKeys()
    ensures var a := ["x" + [NUL] + "y", "z"];
      var b := ["x", "y" + [NUL] + "z"];
      a != b && |a| == |b| && Framed(a) == Framed(b)
  {
    FramedPair("x" + [NUL] + "y", "z");
    FramedPair("x", "y" + [NUL] + "z");
    assert |"x" + [NUL] + "y"| != |"x"|;
    assert "x" + [NUL] + "y" + [NUL] + "z" + [NUL] == "x" + [NUL] + ("y" + [NUL] + "z") + [NUL];
  }

  /** A list of keys is told from all others of its length exactly when it has
      at most one key, or no key with a NUL. */
  lemma FramingDeterminesExactly(a: seq<string>)
    ensures (forall b :: |b| == |a| && Framed(b) == Framed(a) ==> b == a) <==> |a| <= 1 || AllNulFree(a)
  {
    hide Framed, NulFree;
    if AllNulFree(a) {
      forall b | |b| == |a| && Framed(b) == Framed(a) ensures b == a { EqualLengthFraming(a, b); }
    } else if |a| == 1 {
      forall b | |b| == |a| && Framed(b) == Framed(a) ensures b == a { OneKeyIsDetermined(a, b); }
    } else {
      var i :| 0 <= i < |a| && !NulFree(a[i]);
      var b := CutElsewhere(a, if i + 1 < |a| then i else i - 1);
    }
  }

  lemma OneKeyIsDetermined(a: seq<string>, b: seq<string>)
    requires |a| == |b| == 1 && Framed(a) == Framed(b)
    ensures a == b
  {
    assert a[..0] == [] && b[..0] == [];
    assert Framed(a)[..|a[0]|] == a[0] && Framed(b)[..|b[0]|] == b[0];
    assert a == [a[0]] && b == [b[0]];
  }
}
