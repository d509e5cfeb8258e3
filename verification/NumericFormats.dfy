/**
 * What the readers of source text do with the formats the sources use: a
 * currency sign, thousands separators, a fraction, and a unit after a space.
 */
module NumericFormats {
  import opened Wrappers
  import opened Text
  import opened Normalization

  function Concat(groups: seq<string>): string {
    if groups == [] then "" else groups[0] + Concat(groups[1..])
  }

  /** A whole number in groups of digits, and perhaps a fraction. */
  predicate IsGrouped(groups: seq<string>, fraction: string) {
    && groups != [] && groups[0] != ""
    && (forall i :: 0 <= i < |groups| ==> AllDigits(groups[i]))
    && (fraction == "" || (fraction[0] == '.' && AllDigits(fraction[1..])))
  }

  /** Nothing, or a space and a word. */
  predicate IsSuffix(suffix: string) {
    suffix == "" || (suffix[0] == ' ' && |suffix| > 1 && forall i :: 1 <= i < |suffix| ==> !IsWhitespace(suffix[i]))
  }

  function Printed(dollar: bool, groups: seq<string>, fraction: string, suffix: string): string {
    (if dollar then "$" else "") + (Joined(groups, ',') + fraction + suffix)
  }

  lemma {:induction false} WithoutAdds(a: string, b: string, c: char)
    ensures Without(a + b, c) == Without(a, c) + Without(b, c)
  {
    if a == "" {
      assert a + b == b;
    } else {
      assert (a + b)[1..] == a[1..] + b;
      WithoutAdds(a[1..], b, c);
    }
  }

  lemma DigitsHaveNo(s: string, c: char)
    requires AllDigits(s) && !IsDigit(c)
    ensures c !in s
  {
    assert forall i :: 0 <= i < |s| ==> IsDigit(s[i]);
  }

  lemma {:induction false} SeparatorsVanish(groups: seq<string>)
    requires forall i :: 0 <= i < |groups| ==> AllDigits(groups[i])
    ensures Without(Joined(groups, ','), ',') == Concat(groups)
    ensures AllDigits(Concat(groups))
  {
    if groups != [] {
      DigitsHaveNo(groups[0], ',');
      WithoutChangesNothing(groups[0], ',');
      SeparatorsVanish(groups[1..]);
      if |groups| == 1 {
        assert groups[1..] == [] && groups[0] + "" == groups[0];
      } else {
        var rest := Joined(groups[1..], ',');
        WithoutAdds(groups[0], [','] + rest, ',');
        assert ([','] + rest)[1..] == rest;
        assert Without([','] + rest, ',') == "" + Without(rest, ',') == Without(rest, ',');
      }
    }
  }

  lemma {:induction false} WithoutLeavesOthers(s: string, c: char)
    ensures forall i :: 0 <= i < |Without(s, c)| ==> Without(s, c)[i] in s
    ensures s != "" && s[0] != c ==> Without(s, c) != "" && Without(s, c)[0] == s[0]
  {
    if s != "" { WithoutLeavesOthers(s[1..], c); }
  }

  /** The text starts with a digit or the sign and ends outside whitespace. */
  lemma {:induction false} JoinedStartsWithADigit(groups: seq<string>)
    requires groups != [] && groups[0] != "" && forall i :: 0 <= i < |groups| ==> AllDigits(groups[i])
    ensures Joined(groups, ',') != "" && IsDigit(Joined(groups, ',')[0])
    ensures forall i :: 0 <= i < |Joined(groups, ',')| ==> IsDigit(Joined(groups, ',')[i]) || Joined(groups, ',')[i] == ','
  {
    JoinedIsPlain(groups);
  }

  lemma {:induction false} JoinedIsPlain(groups: seq<string>)
    requires forall i :: 0 <= i < |groups| ==> AllDigits(groups[i])
    ensures forall i :: 0 <= i < |Joined(groups, ',')| ==> IsDigit(Joined(groups, ',')[i]) || Joined(groups, ',')[i] == ','
  {
    if |groups| > 1 { JoinedIsPlain(groups[1..]); }
  }

  lemma PrintedIsTrimmed(dollar: bool, groups: seq<string>, fraction: string, suffix: string)
    requires IsGrouped(groups, fraction) && IsSuffix(suffix)
    ensures Sentinel(Printed(dollar, groups, fraction, suffix)) == Some(Printed(dollar, groups, fraction, suffix))
  {
    hide Joined;
    var body := Joined(groups, ',') + fraction + suffix;
    var text := Printed(dollar, groups, fraction, suffix);
    JoinedStartsWithADigit(groups);
    assert body[0] == Joined(groups, ',')[0];
    assert text[0] == if dollar then '$' else body[0];
    assert text[|text| - 1] == body[|body| - 1];
    LastIsNoSpace(Joined(groups, ','), fraction, suffix);
    TrimStartShape(text, IsWhitespace);
    TrimEndShape(text, IsWhitespace);
    SaysSomething(text);
  }

  lemma LastIsNoSpace(joined: string, fraction: string, suffix: string)
    requires joined != "" && forall i :: 0 <= i < |joined| ==> IsDigit(joined[i]) || joined[i] == ','
    requires fraction == "" || (fraction[0] == '.' && AllDigits(fraction[1..]))
    requires IsSuffix(suffix)
    ensures var body := joined + fraction + suffix; !IsWhitespace(body[|body| - 1])
  {
    var body := joined + fraction + suffix;
    if suffix != "" {
      assert body[|body| - 1] == suffix[|suffix| - 1];
    } else if fraction != "" {
      assert body[|body| - 1] == fraction[|fraction| - 1];
      assert |fraction| > 1 ==> fraction[|fraction| - 1] == fraction[1..][|fraction| - 2];
    } else {
      assert body[|body| - 1] == joined[|joined| - 1];
    }
  }

  lemma SaysSomething(text: string)
    requires text != "" && (text[0] == '$' || IsDigit(text[0]))
    ensures !SaysNothing(text)
  {
    assert Lower(text)[0] == text[0];
    PrefixSharesTheFirst(Lower(text), "none");
    assert "n/a"[0] == 'n' && "-"[0] == '-' && "--"[0] == '-';
  }

  lemma PrintedIsCleaned(dollar: bool, groups: seq<string>, fraction: string, suffix: string)
    requires IsGrouped(groups, fraction) && IsSuffix(suffix)
    ensures Cleaned(Printed(dollar, groups, fraction, suffix)) == Concat(groups) + fraction + Without(suffix, ',')
  {
    hide Joined, Concat;
    var joined := Joined(groups, ',');
    var body := joined + fraction + suffix;
    JoinedStartsWithADigit(groups);
    var isDollar := c => c == '$';
    assert body[0] == joined[0];
    TrimStartShape(body, isDollar);
    if dollar { assert ("$" + body)[1..] == body; } else { assert "" + body == body; }
    assert Cleaned(Printed(dollar, groups, fraction, suffix)) == Without(body, ',');
    WithoutAdds(joined + fraction, suffix, ',');
    WithoutAdds(joined, fraction, ',');
    SeparatorsVanish(groups);
    FractionHasNoComma(fraction);
    WithoutChangesNothing(fraction, ',');
  }

  lemma FractionHasNoComma(fraction: string)
    requires fraction == "" || (fraction[0] == '.' && AllDigits(fraction[1..]))
    ensures ',' !in fraction
  {
    if fraction != "" {
      DigitsHaveNo(fraction[1..], ',');
      assert fraction == [fraction[0]] + fraction[1..];
    }
  }

  lemma PlainNumberIsDecimal(whole: string, fraction: string)
    requires whole != "" && AllDigits(whole)
    requires fraction == "" || (fraction[0] == '.' && AllDigits(fraction[1..]))
    ensures IsDecimal(whole + fraction) && AllAccepted(whole + fraction)
  {
    var n := whole + fraction;
    assert n[0] == whole[0] && IsDigit(whole[0]);
    PrefixSharesTheFirst(n, "-");
    assert Unsigned(n) == n;
    forall i | 0 <= i < |n| ensures IsDigit(n[i]) || (n[i] == '.' && i == |whole|) {
      if i < |whole| { assert n[i] == whole[i]; } else if i > |whole| { assert n[i] == fraction[1..][i - |whole| - 1]; }
    }
  }

  /** However a non-negative number is printed, with a currency sign or not, in
      groups or not, with a fraction or not, alone or before a unit, what is read
      is its plain digits. */
  lemma PrintedNumbersAreRead(dollar: bool, groups: seq<string>, fraction: string, suffix: string)
    requires IsGrouped(groups, fraction) && IsSuffix(suffix)
    ensures Numeric(Printed(dollar, groups, fraction, suffix)) == Some(Concat(groups) + fraction)
  {
    hide Printed, Joined, IsMaximalMatch, IsDecimal, Sentinel, Cleaned, AllAccepted;
    var text := Printed(dollar, groups, fraction, suffix);
    var whole := Concat(groups);
    var plain := whole + fraction;
    PrintedIsTrimmed(dollar, groups, fraction, suffix);
    PrintedIsCleaned(dollar, groups, fraction, suffix);
    SeparatorsVanish(groups);
    assert whole != "" by { assert whole == groups[0] + Concat(groups[1..]); }
    hide Concat;
    PlainNumberIsDecimal(whole, fraction);
    PlainNumberIsMaximal(plain, Without(suffix, ',')) by { SuffixStops(suffix); }
    NumericIsTheMaximalDecimal(text);
    if Numeric(text).Some? { TheMatchIsUnique(plain, Numeric(text).value, plain + Without(suffix, ',')); }
  }

  lemma SuffixStops(suffix: string)
    requires IsSuffix(suffix)
    ensures Without(suffix, ',') == "" || Without(suffix, ',')[0] == ' '
  {
    WithoutLeavesOthers(suffix, ',');
  }

  lemma PlainNumberIsMaximal(plain: string, rest: string)
    requires plain != "" && AllAccepted(plain) && (rest == "" || rest[0] == ' ')
    ensures IsMaximalMatch(plain, plain + rest)
  {
    var s := plain + rest;
    assert s[..|plain|] == plain;
    if rest != "" {
      var longer := s[..|plain| + 1];
      assert longer[|plain|] == ' ' && !Accepted(longer, |plain|);
    }
  }

  // ------------------------------------------------------ character classes

  lemma CharacterClasses(c: char)
    ensures IsDigit(c) <==> c in "0123456789"
    ensures IsLetter(c) <==> c in "abcdefghijklmnopqrstuvwxyz" || c in "ABCDEFGHIJKLMNOPQRSTUVWXYZ"
  {}

  /** The spellings of nothing are these, in any letter case, and whatever begins
      with "none". */
  lemma SpellingsOfNothing(value: string)
    ensures SaysNothing(value) <==>
      value == "" || value == "-" || value == "--" || value == "n/a" || value == "N/A" || value == "N/a" || value == "n/A"
      || (|value| >= 4 && value[0] in "nN" && value[1] in "oO" && value[2] in "nN" && value[3] in "eE")
  {
    var lower := Lower(value);
    if |value| >= 4 {
      assert lower[..4] == [lower[0], lower[1], lower[2], lower[3]];
    }
    if |value| == 3 { assert value == [value[0], value[1], value[2]] && lower == [lower[0], lower[1], lower[2]]; }
    if |value| == 2 { assert value == [value[0], value[1]] && lower == [lower[0], lower[1]]; }
    if |value| == 1 { assert value == [value[0]] && lower == [lower[0]]; }
  }
}
