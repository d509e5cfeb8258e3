/**
 * Taking the comments out of SQL: a scanner over characters, which parts of a
 * text it depends on, and when a second pass would change its result.
 */
module SqlComments {
  import opened Wrappers
  import opened Text

  predicate At(sql: string, i: nat, a: char, b: char) {
    i + 1 < |sql| && sql[i] == a && sql[i + 1] == b
  }

  predicate OpensComment(sql: string, i: nat) { At(sql, i, '-', '-') || At(sql, i, '/', '*') }

  /** Every line feed among the characters from `i` up to `j`. */
  function Feeds(sql: string, i: nat, j: nat): string
    requires i <= j <= |sql|
  {
    if i == j then "" else Feeds(sql, i, j - 1) + (if sql[j - 1] == '\n' then "\n" else "")
  }

  /** The end of a line comment: its line feed, or the end of the text. */
  function LineEnd(sql: string, i: nat): (j: nat)
    requires i <= |sql|
    ensures i <= j <= |sql| && (j < |sql| ==> sql[j] == '\n')
    ensures forall k :: i <= k < j ==> sql[k] != '\n'
    decreases |sql| - i
  {
    if i == |sql| || sql[i] == '\n' then i else LineEnd(sql, i + 1)
  }

  /** The first closing mark at or after `i`, or the end of the text. */
  function BlockEnd(sql: string, i: nat): (j: nat)
    requires i <= |sql|
    ensures i <= j <= |sql| && (j < |sql| ==> At(sql, j, '*', '/'))
    ensures forall k :: i <= k < j ==> !At(sql, k, '*', '/')
    decreases |sql| - i
  {
    if i == |sql| || At(sql, i, '*', '/') then i else BlockEnd(sql, i + 1)
  }

  function Before(text: string, rest: Option<string>): Option<string> {
    if rest.None? then None else Some(text + rest.value)
  }

  /** What one step of the scanner leaves, and where it goes on. */
  datatype Token = Token(shown: string, next: nat)

  /** A comment or one character; nothing for a block that never closes. */
  function TokenAt(sql: string, i: nat): (t: Option<Token>)
    requires i < |sql|
    ensures t.Some? ==> i < t.value.next <= |sql|
  {
    if At(sql, i, '-', '-') then
      var j := LineEnd(sql, i + 2);
      Some(if j == |sql| then Token("", j) else Token("\n", j + 1))
    else if At(sql, i, '/', '*') then
      var j := BlockEnd(sql, i + 2);
      if j == |sql| then None else Some(Token(Feeds(sql, i + 2, j), j + 2))
    else Some(Token([sql[i]], i + 1))
  }

  /** What is left of `sql[i..]`. */
  function Active(sql: string, i: nat): Option<string>
    requires i <= |sql|
    decreases |sql| - i
  {
    if i == |sql| then Some("")
    else match TokenAt(sql, i)
      case None => None
      case Some(t) => Before(t.shown, Active(sql, t.next))
  }

  lemma BeforeTwice(a: string, b: string, rest: Option<string>)
    ensures Before(a, Before(b, rest)) == Before(a + b, rest)
  {
    if rest.Some? { assert a + (b + rest.value) == a + b + rest.value; }
  }

  lemma NothingBefore(rest: Option<string>)
    ensures Before("", rest) == rest
  {
    if rest.Some? { assert "" + rest.value == rest.value; }
  }

  lemma LineEndIs(sql: string, i: nat, j: nat)
    requires i <= j <= |sql| && (forall k :: i <= k < j ==> sql[k] != '\n') && (j < |sql| ==> sql[j] == '\n')
    ensures LineEnd(sql, i) == j
  {}

  lemma BlockEndIs(sql: string, i: nat, j: nat)
    requires i <= j <= |sql| && (forall k :: i <= k < j ==> !At(sql, k, '*', '/')) && (j < |sql| ==> At(sql, j, '*', '/'))
    ensures BlockEnd(sql, i) == j
  {}

  /** The rest of a line comment; its line feed is kept. */
  method SkipLine(sql: string, from: nat, active: string) returns (shown: string, next: nat)
    requires from <= |sql|
    ensures var end := LineEnd(sql, from);
      if end < |sql| then shown == active + "\n" && next == end + 1 else shown == active && next == |sql|
  {
    shown, next := active, from;
    while next < |sql|
      invariant from <= next <= |sql| && shown == active
      invariant forall k :: from <= k < next ==> sql[k] != '\n'
    {
      next := next + 1;
      if sql[next - 1] == '\n' {
        LineEndIs(sql, from, next - 1);
        return shown + "\n", next;
      }
    }
    LineEndIs(sql, from, next);
  }

  /** The rest of a block comment; its line feeds are kept. */
  method SkipBlock(sql: string, from: nat, active: string) returns (shown: string, next: nat, closed: bool)
    requires from <= |sql|
    ensures closed <==> BlockEnd(sql, from) < |sql|
    ensures closed ==> shown == active + Feeds(sql, from, BlockEnd(sql, from)) && next == BlockEnd(sql, from) + 2
  {
    shown, next, closed := active, from, false;
    while next < |sql|
      invariant from <= next <= |sql| && shown == active + Feeds(sql, from, next)
      invariant forall k :: from <= k < next ==> !At(sql, k, '*', '/')
    {
      if sql[next] == '\n' {
        shown := shown + "\n";
      } else if sql[next] == '*' && next + 1 < |sql| && sql[next + 1] == '/' {
        BlockEndIs(sql, from, next);
        return shown, next + 2, true;
      }
      next := next + 1;
    }
    BlockEndIs(sql, from, next);
  }

  /** The scanner's invariant over one token. */
  lemma OneToken(sql: string, i: nat, active: string)
    requires i < |sql|
    ensures Before(active, Active(sql, i)) ==
      if TokenAt(sql, i).None? then None
      else Before(active + TokenAt(sql, i).value.shown, Active(sql, TokenAt(sql, i).value.next))
  {
    hide TokenAt;
    if TokenAt(sql, i).Some? { BeforeTwice(active, TokenAt(sql, i).value.shown, Active(sql, TokenAt(sql, i).value.next)); }
  }

  method WithoutSqlComments(sql: string) returns (result: Option<string>)
    ensures result == Active(sql, 0)
  {
    hide LineEnd, BlockEnd, Feeds, Active, Before;
    var active, i := "", 0;
    NothingBefore(Active(sql, 0));
    while i < |sql|
      invariant i <= |sql| && Active(sql, 0) == Before(active, Active(sql, i))
    {
      OneToken(sql, i, active);
      if sql[i] == '-' && i + 1 < |sql| && sql[i + 1] == '-' {
        assert active + "" == active;
        active, i := SkipLine(sql, i + 2, active);
      } else if sql[i] == '/' && i + 1 < |sql| && sql[i + 1] == '*' {
        var closed;
        active, i, closed := SkipBlock(sql, i + 2, active);
        if !closed { return None; }
      } else {
        active, i := active + [sql[i]], i + 1;
      }
    }
    NothingLeft(sql, active);
    return Some(active);
  }

  lemma NothingLeft(sql: string, active: string)
    ensures Before(active, Active(sql, |sql|)) == Some(active)
  {
    assert active + "" == active;
  }

  lemma {:induction false} FeedsKeepsCount(sql: string, i: nat, j: nat)
    requires i <= j <= |sql|
    ensures CountOf(Feeds(sql, i, j), '\n') == CountOf(sql[i..j], '\n')
  {
    if i < j {
      FeedsKeepsCount(sql, i, j - 1);
      CountAdds(Feeds(sql, i, j - 1), if sql[j - 1] == '\n' then "\n" else "", '\n');
      assert sql[i..j][..j - i - 1] == sql[i..j - 1];
    }
  }

  lemma CommentKeepsFeeds(sql: string, i: nat)
    requires i < |sql| && OpensComment(sql, i) && TokenAt(sql, i).Some?
    ensures CountOf(TokenAt(sql, i).value.shown, '\n') == CountOf(sql[i..TokenAt(sql, i).value.next], '\n')
  {
    hide CountOf, Feeds, LineEnd, BlockEnd;
    var next := TokenAt(sql, i).value.next;
    if At(sql, i, '-', '-') {
      var j := LineEnd(sql, i + 2);
      CountIsZeroExactly(sql[i..j], '\n');
      CountIsZeroExactly("", '\n');
      CountAdds(sql[i..j], sql[j..next], '\n');
      assert sql[i..j] + sql[j..next] == sql[i..next];
      assert sql[j..next] == if j < |sql| then "\n" else "";
    } else {
      var j := BlockEnd(sql, i + 2);
      FeedsKeepsCount(sql, i + 2, j);
      CountIsZeroExactly(sql[i..i + 2], '\n');
      CountIsZeroExactly(sql[j..next], '\n');
      CountAdds(sql[i..i + 2], sql[i + 2..j], '\n');
      CountAdds(sql[i..j], sql[j..next], '\n');
      assert sql[i..i + 2] + sql[i + 2..j] == sql[i..j] && sql[i..j] + sql[j..next] == sql[i..next];
    }
  }

  /** Every line of the active text has the number it had: no line feed is lost
      or added, even inside a comment. */
  lemma {:induction false} LineNumbersAreKept(sql: string, i: nat)
    requires i <= |sql| && Active(sql, i).Some?
    ensures CountOf(Active(sql, i).value, '\n') == CountOf(sql[i..], '\n')
    decreases |sql| - i
  {
    if i == |sql| {
      assert sql[i..] == "";
    } else {
      var t := TokenAt(sql, i).value;
      if OpensComment(sql, i) { CommentKeepsFeeds(sql, i); } else { assert sql[i..i + 1] == [sql[i]] == t.shown; }
      hide CountOf, TokenAt;
      LineNumbersAreKept(sql, t.next);
      CountAdds(t.shown, Active(sql, t.next).value, '\n');
      CountAdds(sql[i..t.next], sql[t.next..], '\n');
      assert sql[i..t.next] + sql[t.next..] == sql[i..];
    }
  }

  lemma {:induction false} FeedsIsShort(sql: string, i: nat, j: nat)
    requires i <= j <= |sql|
    ensures |Feeds(sql, i, j)| <= j - i
  {
    if i < j { FeedsIsShort(sql, i, j - 1); }
  }

  /** A comment shows less than it is long, anything else shows itself. */
  lemma TokenLength(sql: string, i: nat)
    requires i < |sql| && TokenAt(sql, i).Some?
    ensures var t := TokenAt(sql, i).value;
      if OpensComment(sql, i) then |t.shown| < t.next - i else t == Token([sql[i]], i + 1)
  {
    hide LineEnd, BlockEnd, Feeds;
    if At(sql, i, '/', '*') { FeedsIsShort(sql, i + 2, BlockEnd(sql, i + 2)); }
  }

  /** A text is unchanged exactly when no comment opens in it. */
  lemma {:induction false} UnchangedExactly(sql: string, i: nat)
    requires i <= |sql|
    ensures Active(sql, i).Some? ==> |Active(sql, i).value| <= |sql| - i
    ensures Active(sql, i) == Some(sql[i..]) <==> forall k: nat :: i <= k < |sql| ==> !OpensComment(sql, k)
    decreases |sql| - i
  {
    if i == |sql| {
      assert sql[i..] == "";
    } else {
      var t := TokenAt(sql, i);
      assert t.None? ==> OpensComment(sql, i);
      hide TokenAt;
      if t.Some? {
        TokenLength(sql, i);
        UnchangedExactly(sql, t.value.next);
        assert sql[i..] == [sql[i]] + sql[i + 1..];
        if !OpensComment(sql, i) && Active(sql, i) == Some(sql[i..]) { assert Active(sql, i).value[1..] == sql[i + 1..]; }
      }
    }
  }

  lemma ClosingUpTokens()
    ensures TokenAt("-/**/-1", 0) == Some(Token("-", 1)) && TokenAt("-/**/-1", 1) == Some(Token("", 5))
    ensures TokenAt("-/**/-1", 5) == Some(Token("-", 6)) && TokenAt("-/**/-1", 6) == Some(Token("1", 7))
    ensures TokenAt("--1", 0) == Some(Token("", 3))
  {
    hide LineEnd, BlockEnd;
    assert !At("-/**/-1", 0, '-', '-');
    BlockEndIs("-/**/-1", 3, 3);
    LineEndIs("--1", 2, 3);
  }

  /** Taking comments out is not idempotent: what is left can close up into the
      start of a new one, and a second pass would then lose a line. */
  lemma ClosingUpCanOpenAComment()
    ensures Active("-/**/-1", 0) == Some("--1") && Active("--1", 0) == Some("")
  {
    hide TokenAt;
    var sql := "-/**/-1";
    ClosingUpTokens();
    assert "1" + "" == "1" && "-" + "1" == "-1" && "" + "-1" == "-1" && "-" + "-1" == "--1" && "" + "" == "";
    assert Active(sql, 6) == Before("1", Active(sql, 7)) == Some("1");
    assert Active(sql, 5) == Before("-", Active(sql, 6)) == Some("-1");
    assert Active(sql, 1) == Before("", Active(sql, 5)) == Some("-1");
    assert Active("--1", 3) == Some("");
  }

  // ------------------------------------------------- a second pass

  /** The next position that is not a closed block comment on one line. */
  function SkipBlocks(sql: string, i: nat): (j: nat)
    requires i <= |sql|
    ensures i <= j <= |sql|
    decreases |sql| - i
  {
    if At(sql, i, '/', '*') && BlockEnd(sql, i + 2) < |sql| && Feeds(sql, i + 2, BlockEnd(sql, i + 2)) == ""
    then SkipBlocks(sql, BlockEnd(sql, i + 2) + 2)
    else i
  }

  predicate IsPlain(sql: string, i: nat) { i < |sql| && !OpensComment(sql, i) }

  predicate SpellsOpening(a: char, b: char) { (a == '-' && b == '-') || (a == '/' && b == '*') }

  /** Some two characters outside comments, with only comments of one line
      between them, would spell the start of a comment. */
  predicate Joins(sql: string, i: nat)
    requires i <= |sql|
    decreases |sql| - i
  {
    i < |sql| && TokenAt(sql, i).Some? && (
      || (IsPlain(sql, i) && JoinsAt(sql, i, SkipBlocks(sql, i + 1)))
      || Joins(sql, TokenAt(sql, i).value.next))
  }

  predicate JoinsAt(sql: string, i: nat, k: nat)
    requires i < |sql|
  {
    IsPlain(sql, k) && SpellsOpening(sql[i], sql[k])
  }

  predicate Opened(text: string) { exists k: nat :: k < |text| && OpensComment(text, k) }

  /** What is left begins with the next plain character, unless a line ends
      first or nothing is left. */
  lemma {:induction false} ActiveBegins(sql: string, i: nat)
    requires i <= |sql| && Active(sql, i).Some?
    ensures var k := SkipBlocks(sql, i);
      var rest := Active(sql, i).value;
      if IsPlain(sql, k) then rest != "" && rest[0] == sql[k] else rest == "" || rest[0] == '\n'
    decreases |sql| - i
  {
    hide LineEnd, BlockEnd;
    if At(sql, i, '/', '*') {
      var j := BlockEnd(sql, i + 2);
      var feeds := Feeds(sql, i + 2, j);
      if feeds == "" {
        ActiveBegins(sql, j + 2);
        NothingBefore(Active(sql, j + 2));
      } else {
        FeedsAreFeeds(sql, i + 2, j);
      }
    }
  }

  lemma {:induction false} FeedsAreFeeds(sql: string, i: nat, j: nat)
    requires i <= j <= |sql|
    ensures forall k :: 0 <= k < |Feeds(sql, i, j)| ==> Feeds(sql, i, j)[k] == '\n'
  {
    if i < j { FeedsAreFeeds(sql, i, j - 1); }
  }

  lemma OpenedAfter(feeds: string, rest: string)
    requires forall k :: 0 <= k < |feeds| ==> feeds[k] == '\n'
    ensures Opened(feeds + rest) <==> Opened(rest)
  {
    var text := feeds + rest;
    if Opened(rest) {
      var k: nat :| k < |rest| && OpensComment(rest, k);
      assert OpensComment(text, |feeds| + k);
    }
    if Opened(text) {
      var k: nat :| k < |text| && OpensComment(text, k);
      assert text[k] != '\n';
      assert OpensComment(rest, k - |feeds|);
    }
  }

  lemma OpenedByOne(c: char, rest: string)
    ensures Opened([c] + rest) <==> (rest != "" && SpellsOpening(c, rest[0])) || Opened(rest)
  {
    var text := [c] + rest;
    if rest != "" && SpellsOpening(c, rest[0]) { assert OpensComment(text, 0); }
    if Opened(rest) {
      var k: nat :| k < |rest| && OpensComment(rest, k);
      assert OpensComment(text, k + 1);
    }
    if Opened(text) {
      var k: nat :| k < |text| && OpensComment(text, k);
      if k > 0 { assert OpensComment(rest, k - 1); }
    }
  }

  /** The result opens a comment exactly when the source brings two such
      characters together. */
  lemma {:induction false} OpenedExactly(sql: string, i: nat)
    requires i <= |sql| && Active(sql, i).Some?
    ensures Opened(Active(sql, i).value) <==> Joins(sql, i)
    decreases |sql| - i
  {
    hide LineEnd, BlockEnd, Feeds, SkipBlocks, Opened;
    NothingOpens();
    if i < |sql| {
      var t := TokenAt(sql, i).value;
      OpenedExactly(sql, t.next);
      if IsPlain(sql, i) {
        ActiveBegins(sql, i + 1);
        OpenedByOne(sql[i], Active(sql, i + 1).value);
      } else {
        CommentShowsFeeds(sql, i);
        OpenedAfter(t.shown, Active(sql, t.next).value);
      }
    }
  }

  lemma CommentShowsFeeds(sql: string, i: nat)
    requires i < |sql| && OpensComment(sql, i) && TokenAt(sql, i).Some?
    ensures forall k :: 0 <= k < |TokenAt(sql, i).value.shown| ==> TokenAt(sql, i).value.shown[k] == '\n'
  {
    hide LineEnd, BlockEnd;
    if At(sql, i, '/', '*') && !At(sql, i, '-', '-') { FeedsAreFeeds(sql, i + 2, BlockEnd(sql, i + 2)); }
  }

  lemma NothingOpens()
    ensures !Opened("")
  {}

  /** Stripping twice is stripping once exactly when no two characters of the
      source are brought together into the start of a comment. */
  lemma StrippingTwiceExactly(sql: string)
    requires Active(sql, 0).Some?
    ensures Active(Active(sql, 0).value, 0) == Active(sql, 0) <==> !Joins(sql, 0)
  {
    hide Active, Joins;
    var once := Active(sql, 0).value;
    OpenedExactly(sql, 0);
    UnchangedExactly(once, 0);
    assert once[0..] == once;
  }

  // ------------------------------------------- what a comment can influence

  /** The scanner, started at `from`, comes to position `i` outside comments. */
  predicate Visits(sql: string, from: nat, i: nat)
    requires from <= |sql|
    decreases |sql| - from
  {
    from == i || (from < |sql| && TokenAt(sql, from).Some? && Visits(sql, TokenAt(sql, from).value.next, i))
  }

  /** What the scanner leaves of the text between two positions it visits. */
  function Between(sql: string, from: nat, i: nat): string
    requires from <= |sql| && Visits(sql, from, i)
    decreases |sql| - from
  {
    if from == i then "" else TokenAt(sql, from).value.shown + Between(sql, TokenAt(sql, from).value.next, i)
  }

  lemma {:induction false} VisitsGoForward(sql: string, from: nat, i: nat)
    requires from <= |sql| && Visits(sql, from, i)
    ensures from <= i <= |sql|
    ensures Active(sql, from) == Before(Between(sql, from, i), Active(sql, i))
    decreases |sql| - from
  {
    hide TokenAt;
    if from == i {
      NothingBefore(Active(sql, i));
    } else {
      var t := TokenAt(sql, from).value;
      VisitsGoForward(sql, t.next, i);
      BeforeTwice(t.shown, Between(sql, t.next, i), Active(sql, i));
    }
  }

  /** Both texts are the same up to and including position `i`. */
  predicate SameUpTo(s: string, t: string, i: nat) { i < |s| && i < |t| && s[..i + 1] == t[..i + 1] }

  lemma SameCharacters(s: string, t: string, i: nat, k: nat)
    requires SameUpTo(s, t, i) && k <= i
    ensures s[k] == t[k]
  {
    assert s[k] == s[..i + 1][k] && t[k] == t[..i + 1][k];
  }

  lemma {:induction false} SameFeeds(s: string, t: string, i: nat, from: nat, to: nat)
    requires SameUpTo(s, t, i) && from <= to <= i
    ensures Feeds(s, from, to) == Feeds(t, from, to)
  {
    if from < to {
      SameFeeds(s, t, i, from, to - 1);
      SameCharacters(s, t, i, to - 1);
    }
  }

  lemma {:induction false} SameLineEnd(s: string, t: string, i: nat, a: nat)
    requires SameUpTo(s, t, i) && a <= |s| && LineEnd(s, a) <= i
    ensures a <= |t| && LineEnd(t, a) == LineEnd(s, a)
    decreases |s| - a
  {
    SameCharacters(s, t, i, a);
    if s[a] != '\n' { SameLineEnd(s, t, i, a + 1); }
  }

  lemma {:induction false} SameBlockEnd(s: string, t: string, i: nat, a: nat)
    requires SameUpTo(s, t, i) && a <= |s| && BlockEnd(s, a) < i
    ensures a <= |t| && BlockEnd(t, a) == BlockEnd(s, a)
    decreases |s| - a
  {
    SameCharacters(s, t, i, a);
    SameCharacters(s, t, i, a + 1);
    if !At(s, a, '*', '/') { SameBlockEnd(s, t, i, a + 1); }
  }

  lemma SameToken(s: string, t: string, i: nat, p: nat)
    requires SameUpTo(s, t, i) && p < i && TokenAt(s, p).Some? && TokenAt(s, p).value.next <= i
    ensures TokenAt(t, p) == TokenAt(s, p)
  {
    SameCharacters(s, t, i, p);
    SameCharacters(s, t, i, p + 1);
    hide LineEnd, BlockEnd, Feeds;
    if At(s, p, '-', '-') {
      SameLineEnd(s, t, i, p + 2);
    } else if At(s, p, '/', '*') {
      SameBlockEnd(s, t, i, p + 2);
      SameFeeds(s, t, i, p + 2, BlockEnd(s, p + 2));
    }
  }

  /** How the scanner gets to `i` depends on nothing after `i`. */
  lemma {:induction false} SameVisit(s: string, t: string, from: nat, i: nat)
    requires SameUpTo(s, t, i) && from <= |s| && from <= |t| && Visits(s, from, i)
    ensures Visits(t, from, i) && Between(t, from, i) == Between(s, from, i)
    decreases |s| - from
  {
    hide TokenAt, SameUpTo, Active;
    VisitsGoForward(s, from, i);
    SameLengths(s, t, i);
    if from < i {
      VisitsGoForward(s, TokenAt(s, from).value.next, i);
      SameToken(s, t, i, from);
      SameVisit(s, t, TokenAt(s, from).value.next, i);
    }
  }

  lemma SameLengths(s: string, t: string, i: nat)
    requires SameUpTo(s, t, i)
    ensures i < |s| && i < |t|
  {}

  /** Both texts are the same from these positions on. */
  predicate SameFrom(s: string, i: nat, t: string, k: nat) { i <= |s| && k <= |t| && s[i..] == t[k..] }

  lemma SameNext(s: string, i: nat, t: string, k: nat, n: nat)
    requires SameFrom(s, i, t, k) && i + n <= |s|
    ensures |s| - i == |t| - k && SameFrom(s, i + n, t, k + n) && (i + n < |s| ==> s[i + n] == t[k + n])
  {
    assert |s[i..]| == |t[k..]|;
    assert s[i + n..] == s[i..][n..] && t[k + n..] == t[k..][n..];
    if i + n < |s| { assert s[i + n] == s[i..][n] && t[k + n] == t[k..][n]; }
  }

  lemma {:induction false} LineEndOfRest(s: string, i: nat, t: string, k: nat)
    requires SameFrom(s, i, t, k)
    ensures LineEnd(s, i) - i == LineEnd(t, k) - k
    decreases |s| - i
  {
    SameNext(s, i, t, k, 0);
    if i < |s| && s[i] != '\n' {
      SameNext(s, i, t, k, 1);
      LineEndOfRest(s, i + 1, t, k + 1);
    }
  }

  lemma SameMarks(s: string, i: nat, t: string, k: nat, a: char, b: char)
    requires SameFrom(s, i, t, k)
    ensures At(s, i, a, b) <==> At(t, k, a, b)
  {
    SameNext(s, i, t, k, 0);
    if i < |s| { SameNext(s, i, t, k, 1); }
  }

  lemma {:induction false} BlockEndOfRest(s: string, i: nat, t: string, k: nat)
    requires SameFrom(s, i, t, k)
    ensures BlockEnd(s, i) - i == BlockEnd(t, k) - k
    decreases |s| - i
  {
    SameNext(s, i, t, k, 0);
    SameMarks(s, i, t, k, '*', '/');
    if i < |s| && !At(s, i, '*', '/') {
      SameNext(s, i, t, k, 1);
      BlockEndOfRest(s, i + 1, t, k + 1);
    }
  }

  lemma {:induction false} FeedsOfRest(s: string, i: nat, t: string, k: nat, n: nat)
    requires SameFrom(s, i, t, k) && i + n <= |s|
    ensures k + n <= |t| && Feeds(s, i, i + n) == Feeds(t, k, k + n)
  {
    SameNext(s, i, t, k, n);
    if n > 0 {
      FeedsOfRest(s, i, t, k, n - 1);
      SameNext(s, i, t, k, n - 1);
    }
  }

  lemma TokenOfSameRest(s: string, i: nat, t: string, k: nat)
    requires SameFrom(s, i, t, k) && i < |s|
    ensures |s| - i == |t| - k
    ensures TokenAt(s, i).Some? <==> TokenAt(t, k).Some?
    ensures TokenAt(s, i).Some? ==>
      && TokenAt(t, k).value.shown == TokenAt(s, i).value.shown
      && SameFrom(s, TokenAt(s, i).value.next, t, TokenAt(t, k).value.next)
  {
    hide LineEnd, BlockEnd, Feeds, SameFrom;
    SameNext(s, i, t, k, 0);
    SameNext(s, i, t, k, 1);
    SameMarks(s, i, t, k, '-', '-');
    SameMarks(s, i, t, k, '/', '*');
    if i + 2 <= |s| {
      SameNext(s, i, t, k, 2);
      LineEndOfRest(s, i + 2, t, k + 2);
      BlockEndOfRest(s, i + 2, t, k + 2);
      if At(s, i, '/', '*') { FeedsOfRest(s, i + 2, t, k + 2, BlockEnd(s, i + 2) - i - 2); }
    }
    if TokenAt(s, i).Some? { SameNext(s, i, t, k, TokenAt(s, i).value.next - i); }
  }

  /** What is left depends on the text from there on, not on where it stands. */
  lemma {:induction false} ActiveOfSameRest(s: string, i: nat, t: string, k: nat)
    requires SameFrom(s, i, t, k)
    ensures Active(s, i) == Active(t, k)
    decreases |s| - i
  {
    hide TokenAt, SameFrom;
    SameEnds(s, i, t, k);
    if i < |s| {
      TokenOfSameRest(s, i, t, k);
      if TokenAt(s, i).Some? { ActiveOfSameRest(s, TokenAt(s, i).value.next, t, TokenAt(t, k).value.next); }
    }
  }

  lemma SameEnds(s: string, i: nat, t: string, k: nat)
    requires SameFrom(s, i, t, k)
    ensures i <= |s| && k <= |t| && |s| - i == |t| - k
  {
    assert |s[i..]| == |t[k..]|;
  }

  /** A text with something else inside the comment opened at `i`. */
  function Replaced(sql: string, i: nat, inside: string, end: nat): string
    requires i + 2 <= end <= |sql|
  {
    sql[..i + 2] + inside + sql[end..]
  }

  lemma ReplacedShape(sql: string, i: nat, inside: string, end: nat)
    requires i + 2 <= end <= |sql|
    ensures var other := Replaced(sql, i, inside, end);
      && SameUpTo(sql, other, i) && other[i + 1] == sql[i + 1]
      && SameFrom(other, i + 2 + |inside|, sql, end)
      && (forall k :: i + 2 <= k < i + 2 + |inside| ==> other[k] == inside[k - i - 2])
  {
    var other := Replaced(sql, i, inside, end);
    assert other[..i + 2] == sql[..i + 2];
    assert other[..i + 1] == other[..i + 2][..i + 1] && sql[..i + 1] == sql[..i + 2][..i + 1];
    assert other[i + 1] == other[..i + 2][i + 1] && sql[i + 1] == sql[..i + 2][i + 1];
  }

  /** An inside does not close its own comment, alone or with the closing mark. */
  predicate StaysInside(inside: string) { BlockEnd(inside + "*/", 0) == |inside| }

  lemma InsideEndsWhereItDid(inside: string, other: string, i: nat, end: nat, sql: string)
    requires i + 2 <= end <= |sql| && At(sql, end, '*', '/') && StaysInside(inside)
    requires other == Replaced(sql, i, inside, end)
    ensures BlockEnd(other, i + 2) == i + 2 + |inside| < |other|
    ensures Feeds(other, i + 2, i + 2 + |inside|) == Feeds(inside, 0, |inside|)
  {
    hide Feeds, Replaced, SameUpTo, SameFrom;
    ReplacedShape(sql, i, inside, end);
    var n := |inside|;
    var a := i + 2;
    SameNext(other, a + n, sql, end, 0);
    SameNext(other, a + n, sql, end, 1);
    var closed := inside + "*/";
    assert forall k :: 0 <= k < n + 2 ==> other[a + k] == closed[k];
    forall k | a <= k < a + n ensures !At(other, k, '*', '/') { assert !At(closed, k - a, '*', '/'); }
    BlockEndIs(other, a, a + n);
    FeedsOfPart(other, a, inside, n);
  }

  lemma {:induction false} FeedsOfPart(other: string, a: nat, inside: string, n: nat)
    requires n <= |inside| && a + |inside| <= |other| && forall k :: 0 <= k < |inside| ==> other[a + k] == inside[k]
    ensures Feeds(other, a, a + n) == Feeds(inside, 0, n)
  {
    if n > 0 { FeedsOfPart(other, a, inside, n - 1); }
  }

  /** Two texts that are the same as far as a comment, leave the same of it,
      and are the same after it, have the same active text. */
  lemma SameAround(s: string, t: string, i: nat)
    requires i <= |s| && Visits(s, 0, i) && SameUpTo(s, t, i)
    requires TokenAt(s, i).Some? && TokenAt(t, i).Some? && TokenAt(s, i).value.shown == TokenAt(t, i).value.shown
    requires SameFrom(t, TokenAt(t, i).value.next, s, TokenAt(s, i).value.next)
    ensures Active(t, 0) == Active(s, 0)
  {
    hide TokenAt, SameFrom, Visits, Between;
    SameVisit(s, t, 0, i);
    VisitsGoForward(s, 0, i);
    VisitsGoForward(t, 0, i);
    ActiveOfSameRest(t, TokenAt(t, i).value.next, s, TokenAt(s, i).value.next);
  }

  /** The inside of a block comment matters by its line feeds alone: any other
      inside with the same feeds leaves the same active text. */
  lemma BlockInsideIsIgnored(sql: string, i: nat, inside: string)
    requires i <= |sql| && Visits(sql, 0, i) && At(sql, i, '/', '*') && BlockEnd(sql, i + 2) < |sql|
    requires StaysInside(inside) && Feeds(inside, 0, |inside|) == Feeds(sql, i + 2, BlockEnd(sql, i + 2))
    ensures Active(Replaced(sql, i, inside, BlockEnd(sql, i + 2)), 0) == Active(sql, 0)
  {
    hide BlockEnd, Feeds, Replaced, StaysInside, SameUpTo, SameFrom, Visits, Active;
    var end := BlockEnd(sql, i + 2);
    var other := Replaced(sql, i, inside, end);
    InsideEndsWhereItDid(inside, other, i, end, sql);
    ReplacedShape(sql, i, inside, end);
    SameLengths(sql, other, i);
    SameCharacters(sql, other, i, i);
    SameNext(other, i + 2 + |inside|, sql, end, 2);
    SameAround(sql, other, i);
  }

  /** The text of a line comment does not matter at all. */
  lemma LineInsideIsIgnored(sql: string, i: nat, inside: string)
    requires i <= |sql| && Visits(sql, 0, i) && At(sql, i, '-', '-') && '\n' !in inside
    ensures Active(Replaced(sql, i, inside, LineEnd(sql, i + 2)), 0) == Active(sql, 0)
  {
    hide LineEnd, Replaced, SameUpTo, SameFrom, Visits, Active;
    var end := LineEnd(sql, i + 2);
    var other := Replaced(sql, i, inside, end);
    var last := i + 2 + |inside|;
    ReplacedShape(sql, i, inside, end);
    SameLengths(sql, other, i);
    SameCharacters(sql, other, i, i);
    SameNext(other, last, sql, end, 0);
    LineEndIs(other, i + 2, last);
    if end < |sql| { SameNext(other, last, sql, end, 1); }
    SameAround(sql, other, i);
  }
}
