/**
 * `RateLimitPolicy::new`: reading the `CODE:capacity:refill_per_second`
 * overrides of the default quota.
 */
module QuotaPolicy {
  import opened Wrappers
  import opened Text
  import opened Numbers
  import opened RateLimit

  datatype InvalidPolicy = BucketCeiling | TierOverride(position: nat)

  /** `u32::from_str`: an optional plus sign, at least one digit, no overflow. */
  function ParseU32(s: string): (n: Option<nat>)
    ensures n.Some? ==> n.value <= U32_MAX
  {
    var digits := if HasPrefix(s, "+") then s[1..] else s;
    if digits == "" || !AllDigits(digits) || DecimalValue(digits) > U32_MAX then None
    else Some(DecimalValue(digits))
  }

  /** The quota an entry declares, if the entry can be read on its own. */
  function Declared(entry: string): Option<(string, Quota)> {
    var parts := Split(entry, ':');
    if |parts| != 3 || parts[0] == "" then None
    else match (ParseU32(parts[1]), ParseU32(parts[2]))
      case (Some(capacity), Some(refill)) =>
        if capacity == 0 || refill == 0 then None else Some((parts[0], Quota(capacity, refill)))
      case _ => None
  }

  /** Unreadable, or a code that an earlier entry used. */
  predicate IsRefused(overrides: seq<string>, i: nat)
    requires i < |overrides|
  {
    || Declared(overrides[i]).None?
    || exists j :: 0 <= j < i && Declared(overrides[j]).Some? && Declared(overrides[j]).value.0 == Declared(overrides[i]).value.0
  }

  predicate IsFirstRefused(overrides: seq<string>, i: nat) {
    i < |overrides| && IsRefused(overrides, i) && forall j :: 0 <= j < i ==> !IsRefused(overrides, j)
  }

  ghost predicate Declares(overrides: seq<string>, code: string, quota: Quota) {
    exists j :: 0 <= j < |overrides| && Declared(overrides[j]) == Some((code, quota))
  }

  /** The error names the first entry at fault, by its position from one; a
      policy holds exactly what the entries declare. */
  method NewPolicy(default: Quota, maxBuckets: nat, overrides: seq<string>) returns (result: Result<RateLimitPolicy, InvalidPolicy>)
    ensures result == Err(BucketCeiling) <==> maxBuckets == 0
    ensures result.Err? && maxBuckets > 0 ==>
      result.error.TierOverride? && result.error.position > 0 && IsFirstRefused(overrides, result.error.position - 1)
    ensures result.Ok? <==> maxBuckets > 0 && forall i :: 0 <= i < |overrides| ==> !IsRefused(overrides, i)
    ensures result.Ok? ==> result.value.default == default && result.value.maxBuckets == maxBuckets
    ensures result.Ok? ==> forall code, quota ::
      (code in result.value.tiers && result.value.tiers[code] == quota) <==> Declares(overrides, code, quota)
  {
    hide Declared;
    if maxBuckets == 0 { return Err(BucketCeiling); }
    var tiers: map<string, Quota> := map[];
    var index := 0;
    while index < |overrides|
      invariant index <= |overrides|
      invariant forall j :: 0 <= j < index ==> !IsRefused(overrides, j)
      invariant forall j :: 0 <= j < index ==> Declared(overrides[j]).Some? && Declared(overrides[j]).value.0 in tiers
      invariant forall code <- tiers :: exists j :: 0 <= j < index && Declared(overrides[j]) == Some((code, tiers[code]))
    {
      var declared := Declared(overrides[index]);
      if declared.None? || declared.value.0 in tiers {
        assert IsFirstRefused(overrides, index);
        return Err(TierOverride(index + 1));
      }
      assert !IsRefused(overrides, index);
      tiers := tiers[declared.value.0 := declared.value.1];
      index := index + 1;
    }
    result := Ok(RateLimitPolicy(default, tiers, maxBuckets));
    forall code, quota | Declares(overrides, code, quota) ensures code in tiers && tiers[code] == quota {
      var j :| 0 <= j < |overrides| && Declared(overrides[j]) == Some((code, quota));
      var k :| 0 <= k < |overrides| && Declared(overrides[k]) == Some((code, tiers[code]));
      assert !IsRefused(overrides, j) && !IsRefused(overrides, k);
    }
  }

  // ----------------------------------------------------------- round trip

  lemma PrintedNumberParses(n: nat)
    requires n <= U32_MAX
    ensures ParseU32(DecimalText(n)) == Some(n) && ':' !in DecimalText(n)
  {
    hide DecimalText;
    DecimalRoundTrip(n);
    var text := DecimalText(n);
    assert '0' <= text[0] <= '9';
    PrefixSharesTheFirst(text, "+");
  }

  function Printed(code: string, quota: Quota): string {
    code + (":" + (DecimalText(quota.capacity) + (":" + DecimalText(quota.refillPerSecond))))
  }

  /** Every quota can be declared, under every code without a colon. */
  lemma PrintedOverrideIsRead(code: string, quota: Quota)
    requires code != "" && ':' !in code
    ensures Declared(Printed(code, quota)) == Some((code, quota))
  {
    hide DecimalText, ParseU32;
    var c, r := DecimalText(quota.capacity), DecimalText(quota.refillPerSecond);
    PrintedNumberParses(quota.capacity);
    PrintedNumberParses(quota.refillPerSecond);
    SplitAtTheFirst(r, "", ':');
    assert r + "" == r;
    SplitAtTheFirst(c, ":" + r, ':');
    assert (":" + r)[1..] == r;
    SplitAtTheFirst(code, ":" + (c + (":" + r)), ':');
    assert (":" + (c + (":" + r)))[1..] == c + (":" + r);
  }

  // -------------------------------------------------------- exactly which

  function Zeros(k: nat): string { seq(k, _ => '0') }

  lemma {:induction false} ValueOfZeros(k: nat, text: string)
    requires AllDigits(text)
    ensures AllDigits(Zeros(k) + text) && DecimalValue(Zeros(k) + text) == DecimalValue(text)
  {
    if text == "" {
      if k > 0 {
        ValueOfZeros(k - 1, "");
        assert (Zeros(k) + "")[..k - 1] == Zeros(k - 1) + "";
      }
    } else {
      var n := |text| - 1;
      assert (Zeros(k) + text)[..k + n] == Zeros(k) + text[..n];
      ValueOfZeros(k, text[..n]);
    }
  }

  lemma OneMoreDigit(k: nat, v: nat, c: char) returns (k': nat)
    requires IsDigit(c)
    ensures Zeros(k) + DecimalText(v) + [c] == Zeros(k') + DecimalText(v * 10 + (c as int - '0' as int))
  {
    var digit := c as int - '0' as int;
    var w := v * 10 + digit;
    assert w / 10 == v && w % 10 == digit && "0123456789"[digit] == c;
    if v > 0 {
      k' := k;
      assert DecimalText(w) == DecimalText(v) + [c];
      assert Zeros(k) + DecimalText(v) + [c] == Zeros(k) + (DecimalText(v) + [c]);
    } else {
      k' := k + 1;
      assert DecimalText(0) == "0" && DecimalText(w) == [c];
      assert Zeros(k) + "0" == Zeros(k + 1);
    }
  }

  /** Digits spell their value: some zeros, then its decimal text. */
  lemma {:induction false} DigitsSpellTheirValue(text: string) returns (k: nat)
    requires AllDigits(text) && text != ""
    ensures text == Zeros(k) + DecimalText(DecimalValue(text))
  {
    var n := |text| - 1;
    var c := text[n];
    assert text == text[..n] + [c];
    if n == 0 {
      k := 0;
      OneDigit(c);
      assert text[..0] == "" && Zeros(0) + DecimalText(DecimalValue(text)) == DecimalText(DecimalValue(text));
    } else {
      hide Zeros, DecimalText;
      var earlier := DigitsSpellTheirValue(text[..n]);
      k := OneMoreDigit(earlier, DecimalValue(text[..n]), c);
    }
  }

  lemma OneDigit(c: char)
    requires IsDigit(c)
    ensures DecimalText(c as int - '0' as int) == [c]
  {}

  /** A number is read from exactly its decimal text, with leading zeros and one
      plus sign allowed, and only if it fits thirty-two bits. */
  lemma ParseU32Exactly(s: string, n: nat)
    ensures ParseU32(s) == Some(n) <==>
      n <= 0xFFFF_FFFF && exists k: nat :: s == Zeros(k) + DecimalText(n) || s == "+" + (Zeros(k) + DecimalText(n))
  {
    if ParseU32(s) == Some(n) {
      var digits := if HasPrefix(s, "+") then s[1..] else s;
      var k := DigitsSpellTheirValue(digits);
      assert HasPrefix(s, "+") ==> s == "+" + digits;
    }
    forall k: nat | n <= 0xFFFF_FFFF && (s == Zeros(k) + DecimalText(n) || s == "+" + (Zeros(k) + DecimalText(n)))
      ensures ParseU32(s) == Some(n)
    {
      SpelledNumberParses(k, n, s);
    }
  }

  lemma SpelledNumberParses(k: nat, n: nat, s: string)
    requires n <= 0xFFFF_FFFF && (s == Zeros(k) + DecimalText(n) || s == "+" + (Zeros(k) + DecimalText(n)))
    ensures ParseU32(s) == Some(n)
  {
    hide DecimalText;
    var spelled := Zeros(k) + DecimalText(n);
    DecimalRoundTrip(n);
    ValueOfZeros(k, DecimalText(n));
    assert '0' <= spelled[0] <= '9';
    PrefixSharesTheFirst(spelled, "+");
    if s != spelled { assert s[..1] == "+" && s[1..] == spelled; }
  }

  /** An entry declares a quota exactly when it is a code, a colon, a capacity, a
      colon and a rate, with no further colon and no empty code. */
  lemma DeclaredExactly(entry: string, code: string, quota: Quota)
    ensures Declared(entry) == Some((code, quota)) <==>
      code != "" && ':' !in code && exists capacity, refill ::
        && entry == code + (":" + (capacity + (":" + refill))) && ':' !in capacity && ':' !in refill
        && ParseU32(capacity) == Some(quota.capacity) && ParseU32(refill) == Some(quota.refillPerSecond)
  {
    hide ParseU32;
    if Declared(entry) == Some((code, quota)) {
      var parts := Split(entry, ':');
      SplitLosesNothing(entry, ':');
      assert parts == [parts[0], parts[1], parts[2]] && parts[1..] == [parts[1], parts[2]] && parts[1..][1..] == [parts[2]];
      assert Joined(parts[1..], ':') == parts[1] + ([':'] + parts[2]);
      assert entry == code + (":" + (parts[1] + (":" + parts[2])));
    }
    forall capacity, refill | code != "" && ':' !in code && entry == code + (":" + (capacity + (":" + refill)))
        && ':' !in capacity && ':' !in refill
        && ParseU32(capacity) == Some(quota.capacity) && ParseU32(refill) == Some(quota.refillPerSecond)
      ensures Declared(entry) == Some((code, quota))
    {
      var pieces := [code, capacity, refill];
      assert pieces[1..] == [capacity, refill] && pieces[1..][1..] == [refill];
      assert Joined(pieces[1..], ':') == capacity + ([':'] + refill);
      assert Joined(pieces, ':') == entry;
      SplitOfJoined(pieces, ':');
    }
  }

  /** The limiter uses the quota an entry declares for the tier, and the default
      for a tier that no entry mentions. */
  lemma ConfiguredQuotas(p: RateLimitPolicy, overrides: seq<string>, tier: string)
    requires forall code, quota :: (code in p.tiers && p.tiers[code] == quota) <==> Declares(overrides, code, quota)
    ensures forall quota :: Declares(overrides, tier, quota) ==> QuotaFor(p, tier) == quota
    ensures (forall quota :: !Declares(overrides, tier, quota)) ==> QuotaFor(p, tier) == p.default
  {
    hide Declares;
    if tier in p.tiers { assert Declares(overrides, tier, p.tiers[tier]); }
  }
}
