/**
 * What stripping does to each part of a text: code is kept as it is, a comment
 * leaves its line feeds, and an open comment is refused.
 */
module SqlCommentLaws {
  import opened Wrappers
  import opened Text
  import opened SqlComments

  lemma RestAfter(s: string, n: nat, rest: string)
    requires n <= |s| && s[n..] == rest
    ensures Active(s, n) == Active(rest, 0)
  {
    assert rest[0..] == rest;
    ActiveOfSameRest(s, n, rest, 0);
  }

  /** Code in which no comment opens, not even with what follows, is kept. */
  lemma {:induction false} CodeIsKept(code: string, rest: string)
    requires forall k: nat :: k < |code| ==> !OpensComment(code + rest, k)
    ensures Active(code + rest, 0) == Before(code, Active(rest, 0))
  {
    var s := code + rest;
    if code == "" {
      assert s == rest;
      NothingBefore(Active(rest, 0));
    } else {
      var tail := code[1..] + rest;
      assert s[1..] == tail && s[0] == code[0];
      assert !OpensComment(s, 0);
      assert TokenAt(s, 0) == Some(Token([s[0]], 1));
      forall k: nat | k < |code[1..]| ensures !OpensComment(tail, k) {
        assert !OpensComment(s, k + 1);
        assert forall i :: 0 <= i < |tail| ==> tail[i] == s[i + 1];
      }
      CodeIsKept(code[1..], rest);
      RestAfter(s, 1, tail);
      BeforeTwice([code[0]], code[1..], Active(rest, 0));
      assert [code[0]] + code[1..] == code;
    }
  }

  lemma LineToken(text: string, rest: string)
    requires '\n' !in text && (rest == "" || rest[0] == '\n')
    ensures TokenAt("--" + (text + rest), 0) == Some(if rest == "" then Token("", |text| + 2) else Token("\n", |text| + 3))
  {
    hide LineEnd;
    var s := "--" + (text + rest);
    var n := 2 + |text|;
    forall k | 2 <= k < n ensures s[k] != '\n' { assert s[k] == text[k - 2]; }
    assert rest != "" ==> s[n] == rest[0];
    LineEndIs(s, 2, n);
  }

  /** A line comment leaves the line feed that ends it. */
  lemma LineCommentIsDropped(text: string, rest: string)
    requires '\n' !in text
    ensures Active("--" + (text + ("\n" + rest)), 0) == Before("\n", Active(rest, 0))
    ensures Active("--" + (text + ""), 0) == Some("")
  {
    hide TokenAt;
    LineToken(text, "\n" + rest);
    LineToken(text, "");
    var s, last := "--" + (text + ("\n" + rest)), "--" + (text + "");
    assert s[|text| + 3..] == rest;
    RestAfter(s, |text| + 3, rest);
    assert Active(last, |last|) == Some("");
    NothingBefore(Some(""));
  }

  function Block(inside: string, rest: string): string { "/*" + (inside + ("*/" + rest)) }

  lemma BlockShape(inside: string, rest: string)
    ensures var s, empty := Block(inside, rest), Block("", rest);
      && |empty| >= 4 && At(empty, 2, '*', '/') && At(s, 0, '/', '*')
      && |s| >= |inside| + 4 && s[|inside| + 4..] == rest
      && s == Replaced(empty, 0, inside, 2)
  {
    var s, empty := Block(inside, rest), Block("", rest);
    assert "" + ("*/" + rest) == "*/" + rest;
    assert empty[..2] == "/*" && empty[2..] == "*/" + rest;
    assert s[2 + |inside|..] == "*/" + rest;
  }

  lemma BlockToken(inside: string, rest: string)
    requires StaysInside(inside)
    ensures TokenAt(Block(inside, rest), 0) == Some(Token(Feeds(inside, 0, |inside|), |inside| + 4))
  {
    hide Block, Replaced, StaysInside, Feeds, BlockEnd;
    BlockShape(inside, rest);
    InsideEndsWhereItDid(inside, Block(inside, rest), 0, 2, Block("", rest));
  }

  /** A block comment leaves the line feeds inside it. */
  lemma BlockCommentIsDropped(inside: string, rest: string)
    requires StaysInside(inside)
    ensures Active("/*" + (inside + ("*/" + rest)), 0) == Before(Feeds(inside, 0, |inside|), Active(rest, 0))
  {
    assert Block(inside, rest) == "/*" + (inside + ("*/" + rest));
    hide Block, TokenAt, Feeds, StaysInside;
    BlockShape(inside, rest);
    BlockToken(inside, rest);
    RestAfter(Block(inside, rest), |inside| + 4, rest);
  }

  /** A block comment that is never closed is refused. */
  lemma OpenBlockIsRefused(inside: string)
    requires forall k: nat :: k < |inside| ==> !At(inside, k, '*', '/')
    ensures Active("/*" + inside, 0) == None
  {
    var s := "/*" + inside;
    assert forall k :: 0 <= k < |inside| ==> s[k + 2] == inside[k];
    forall k | 2 <= k < |s| ensures !At(s, k, '*', '/') { assert !At(inside, k - 2, '*', '/'); }
    BlockEndIs(s, 2, |s|);
  }
}
