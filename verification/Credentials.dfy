/**
 * The `ak1` credential token: minting it, parsing a presented one, and
 * deciding whether it authenticates.
 *
 * A token is modelled by the bytes of its UTF-8 text, one `char` for each, so
 * lengths are byte lengths as in the source. SHA-256 is a function parameter.
 */
module Credentials {
  import opened Wrappers
  import opened Hex
  import opened Text

  const TOKEN_PREFIX := "ak1"
  const SECRET_BYTES := 32
  const UUID_CHARS := 36
  const TOKEN_CHARS := 105

  // ----------------------------------------------------------- identifiers

  type Uuid = u: seq<Byte> | |u| == 16 witness seq(16, _ => 0)

  /** Version 4 with the variant of RFC 9562, sections 4.1 and 5.4. */
  function FromRandomBytes(key: Uuid): Uuid {
    key[6 := 0x40 + key[6] % 16][8 := 0x80 + key[8] % 64]
  }

  predicate IsHyphen(p: int) { p == 8 || p == 13 || p == 18 || p == 23 }

  /** Where digit `k` of the thirty-two stands in the hyphenated text. */
  function TextPosition(k: nat): nat
    requires k < 32
  {
    if k < 8 then k else if k < 12 then k + 1 else if k < 16 then k + 2 else if k < 20 then k + 3 else k + 4
  }

  /** Which digit stands at text position `p`. */
  function DigitIndex(p: nat): nat
    requires p < UUID_CHARS && !IsHyphen(p)
  {
    if p < 8 then p else if p < 13 then p - 1 else if p < 18 then p - 2 else if p < 23 then p - 3 else p - 4
  }

  function Hyphenated(u: Uuid): string {
    seq(UUID_CHARS, p requires 0 <= p < UUID_CHARS => if IsHyphen(p) then '-' else Digit(u, DigitIndex(p)))
  }

  function HexValue(c: char): Option<nat> {
    if '0' <= c <= '9' then Some(c as int - '0' as int)
    else if 'a' <= c <= 'f' then Some(c as int - 'a' as int + 10)
    else if 'A' <= c <= 'F' then Some(c as int - 'A' as int + 10)
    else None
  }

  predicate IsHyphenatedUuid(text: string) {
    && |text| == UUID_CHARS
    && forall p :: 0 <= p < UUID_CHARS ==> if IsHyphen(p) then text[p] == '-' else HexValue(text[p]).Some?
  }

  /** `Uuid::try_parse` at the one length a token's key segment can have. */
  function ParseUuid(text: string): Option<Uuid> {
    if !IsHyphenatedUuid(text) then None
    else Some(seq(16, i requires 0 <= i < 16 => ByteAt(text, i)))
  }

  function ByteAt(text: string, i: nat): Byte
    requires IsHyphenatedUuid(text) && i < 16
  {
    Nibble(text, 2 * i) * 16 + Nibble(text, 2 * i + 1)
  }

  function Nibble(text: string, k: nat): (n: nat)
    requires IsHyphenatedUuid(text) && k < 32
    ensures n < 16
  {
    HexValue(text[TextPosition(k)]).value
  }

  // ---------------------------------------------------------------- tokens

  function TokenOf(keyId: Uuid, secret: seq<Byte>): string {
    TOKEN_PREFIX + "_" + Hyphenated(keyId) + "_" + HexOf(secret)
  }

  /** `CredentialMaterial::build`: the token is pushed together in one buffer. */
  method Build(sha: Sha256, key: Uuid, secret: seq<Byte>) returns (keyId: Uuid, token: string, verifier: seq<Byte>)
    requires |secret| == SECRET_BYTES
    ensures keyId == FromRandomBytes(key) && token == TokenOf(keyId, secret) && verifier == sha(token)
  {
    keyId := FromRandomBytes(key);
    token := "";
    token := token + TOKEN_PREFIX;
    token := token + ['_'];
    token := token + Hyphenated(keyId);
    token := token + ['_'];
    var hex := HexByFormat(secret);
    token := token + hex;
    verifier := sha(token);
  }

  datatype Candidate = Candidate(keyId: Uuid, verifier: seq<Byte>)

  datatype SyntaxError = UnexpectedLength | UnexpectedShape | MalformedKeyId

  /** Exactly three segments, of which only the middle one is interpreted. */
  function Parse(sha: Sha256, token: string): Result<Candidate, SyntaxError> {
    if |token| != TOKEN_CHARS then Err(UnexpectedLength)
    else
      var segments := Split(token, '_');
      if |segments| != 3 then Err(UnexpectedShape)
      else if segments[0] != TOKEN_PREFIX || |segments[2]| != SECRET_BYTES * 2 then Err(UnexpectedShape)
      else match ParseUuid(segments[1])
        case None => Err(MalformedKeyId)
        case Some(keyId) => Ok(Candidate(keyId, sha(token)))
  }

  // -------------------------------------------------------- authentication

  datatype LookupRecord = LookupRecord(verifier: seq<Byte>, revoked: bool, disabled: bool, principal: int)

  datatype AuthenticationError = Rejected | Unavailable

  /** What one lookup by key identifier returns. */
  type Lookup = Uuid -> Result<Option<LookupRecord>, ()>

  function AbsentVerifier(): seq<Byte> { seq(32, _ => 0) }

  function Authenticate(lookup: Lookup, candidate: Candidate): Result<int, AuthenticationError> {
    match lookup(candidate.keyId)
    case Err(_) => Err(Unavailable)
    case Ok(record) =>
      var stored := if record.Some? then record.value.verifier else AbsentVerifier();
      var digestMatches := candidate.verifier == stored;
      match record
      case Some(r) => if digestMatches && !r.revoked && !r.disabled then Ok(r.principal) else Err(Rejected)
      case None => Err(Rejected)
  }

  // ----------------------------------------------------------- round trips

  lemma HexValueOfDigit(n: nat)
    requires n < 16
    ensures HexValue(DIGITS[n]) == Some(n)
  {}

  function NibbleOf(u: Uuid, k: nat): (n: nat)
    requires k < 32
    ensures n < 16
  {
    if k % 2 == 0 then u[k / 2] / 16 else u[k / 2] % 16
  }

  lemma DigitReadsBack(u: Uuid, k: nat)
    requires k < 32
    ensures HexValue(Digit(u, k)) == Some(NibbleOf(u, k))
  {
    HexValueOfDigit(NibbleOf(u, k));
  }

  lemma PositionOfDigit(k: nat)
    requires k < 32
    ensures TextPosition(k) < UUID_CHARS && !IsHyphen(TextPosition(k)) && DigitIndex(TextPosition(k)) == k
  {}

  lemma HyphenatedShape(u: Uuid)
    ensures IsHyphenatedUuid(Hyphenated(u))
  {
    hide Digit, HexValue;
    forall p: nat | p < UUID_CHARS && !IsHyphen(p) ensures HexValue(Hyphenated(u)[p]).Some? {
      DigitReadsBack(u, DigitIndex(p));
    }
  }

  lemma NibbleReadsBack(u: Uuid, k: nat)
    requires k < 32 && IsHyphenatedUuid(Hyphenated(u))
    ensures Nibble(Hyphenated(u), k) == NibbleOf(u, k)
  {
    hide Digit, HexValue, TextPosition, DigitIndex, IsHyphenatedUuid, NibbleOf;
    PositionOfDigit(k);
    DigitReadsBack(u, k);
    assert Hyphenated(u)[TextPosition(k)] == Digit(u, k);
  }

  lemma ByteReadsBack(u: Uuid, i: nat)
    requires i < 16 && IsHyphenatedUuid(Hyphenated(u))
    ensures ByteAt(Hyphenated(u), i) == u[i]
  {
    hide Hyphenated, IsHyphenatedUuid, Nibble;
    NibbleReadsBack(u, 2 * i);
    NibbleReadsBack(u, 2 * i + 1);
  }

  lemma UuidRoundTrip(u: Uuid)
    ensures ParseUuid(Hyphenated(u)) == Some(u)
  {
    hide Hyphenated, IsHyphenatedUuid, ByteAt;
    HyphenatedShape(u);
    forall i: nat | i < 16 ensures ByteAt(Hyphenated(u), i) == u[i] {
      ByteReadsBack(u, i);
    }
    var parsed := ParseUuid(Hyphenated(u)).value;
    assert forall i: nat :: i < 16 ==> parsed[i] == ByteAt(Hyphenated(u), i);
    assert parsed == u;
  }

  /** Six bits are fixed; the other hundred and twenty-two tell keys apart. */
  lemma KeyIdentifiersCollideExactly(a: Uuid, b: Uuid)
    ensures FromRandomBytes(a)[6] / 16 == 4 && FromRandomBytes(a)[8] / 64 == 2
    ensures FromRandomBytes(a) == FromRandomBytes(b) <==>
      (forall i :: 0 <= i < 16 && i != 6 && i != 8 ==> a[i] == b[i]) && a[6] % 16 == b[6] % 16 && a[8] % 64 == b[8] % 64
  {
    var x, y := FromRandomBytes(a), FromRandomBytes(b);
    if x == y {
      assert forall i :: 0 <= i < 16 && i != 6 && i != 8 ==> x[i] == a[i] && y[i] == b[i];
      assert x[6] == y[6] && x[8] == y[8];
    }
  }

  predicate OneSegment(s: string) { '_' !in s }

  lemma JoinedOfThree(a: string, b: string, c: string)
    ensures Joined([a, b, c], '_') == a + "_" + b + "_" + c
  {
    assert [a, b, c][1..] == [b, c] && [b, c][1..] == [c];
    assert Joined([b, c], '_') == b + ("_" + c);
    assert a + ("_" + (b + ("_" + c))) == a + "_" + b + "_" + c;
  }

  lemma SplitOfThree(a: string, b: string, c: string)
    requires OneSegment(a) && OneSegment(b) && OneSegment(c)
    ensures Split(a + "_" + b + "_" + c, '_') == [a, b, c]
  {
    JoinedOfThree(a, b, c);
    SplitOfJoined([a, b, c], '_');
  }

  /** The tokens accepted by the parser, written out. */
  predicate HasTokenShape(token: string, key: string, secret: string) {
    && token == "ak1" + "_" + key + "_" + secret
    && IsHyphenatedUuid(key)
    && |secret| == 64 && OneSegment(secret)
  }

  lemma UuidTextIsOneSegment(key: string)
    requires IsHyphenatedUuid(key)
    ensures OneSegment(key)
  {
    forall p | 0 <= p < UUID_CHARS ensures key[p] != '_' {
      assert if IsHyphen(p) then key[p] == '-' else HexValue(key[p]).Some?;
    }
  }

  /** The parser accepts a token exactly when it has the issued layout. */
  lemma ParseAcceptsExactly(sha: Sha256, token: string)
    ensures Parse(sha, token).Ok? <==> exists key, secret :: HasTokenShape(token, key, secret)
    ensures forall key, secret :: HasTokenShape(token, key, secret) ==>
      ParseUuid(key).Some? && Parse(sha, token) == Ok(Candidate(ParseUuid(key).value, sha(token)))
  {
    forall key, secret | HasTokenShape(token, key, secret)
      ensures ParseUuid(key).Some? && Parse(sha, token) == Ok(Candidate(ParseUuid(key).value, sha(token)))
    {
      UuidTextIsOneSegment(key);
      SplitOfThree(TOKEN_PREFIX, key, secret);
    }
    if Parse(sha, token).Ok? {
      var s := Split(token, '_');
      SplitLosesNothing(token, '_');
      assert s == [s[0], s[1], s[2]];
      JoinedOfThree(s[0], s[1], s[2]);
      assert HasTokenShape(token, s[1], s[2]);
    }
  }

  /** Why a text is no token: its length; then its segments; and only then a key
      that is no identifier. */
  lemma ParseErrorsExactly(sha: Sha256, token: string)
    ensures Parse(sha, token) == Err(UnexpectedLength) <==> |token| != 105
    ensures Parse(sha, token) == Err(MalformedKeyId) <==>
      |token| == 105 && exists key, secret :: IsAlmostAToken(token, key, secret)
  {
    if Parse(sha, token) == Err(MalformedKeyId) {
      var s := Split(token, '_');
      SplitLosesNothing(token, '_');
      assert s == [s[0], s[1], s[2]];
      JoinedOfThree(s[0], s[1], s[2]);
      assert IsAlmostAToken(token, s[1], s[2]);
    }
    forall key, secret | |token| == 105 && IsAlmostAToken(token, key, secret) ensures Parse(sha, token) == Err(MalformedKeyId) {
      SplitOfThree(TOKEN_PREFIX, key, secret);
    }
  }

  /** Three segments, the first and the last as they should be, a key that is no
      identifier between them. */
  predicate IsAlmostAToken(token: string, key: string, secret: string) {
    && token == "ak1" + "_" + key + "_" + secret
    && OneSegment(key) && !IsHyphenatedUuid(key)
    && |secret| == 64 && OneSegment(secret)
  }

  /** What is minted parses to what was stored, at the fixed length. */
  lemma IssuedTokenParses(sha: Sha256, key: Uuid, secret: seq<Byte>)
    requires |secret| == SECRET_BYTES
    ensures var keyId := FromRandomBytes(key);
      var token := TokenOf(keyId, secret);
      |token| == 105 && token == "ak1_" + Hyphenated(keyId) + "_" + HexOf(secret) && Parse(sha, token) == Ok(Candidate(keyId, sha(token)))
  {
    var keyId := FromRandomBytes(key);
    UuidRoundTrip(keyId);
    HexShape(secret);
    assert OneSegment(HexOf(secret));
    ParseAcceptsExactly(sha, TokenOf(keyId, secret));
    assert HasTokenShape(TokenOf(keyId, secret), Hyphenated(keyId), HexOf(secret));
  }

  // ------------------------------------------------------------ end to end

  /** A credential as it was minted, and what became of it. */
  datatype Issued = Issued(key: Uuid, secret: seq<Byte>, revoked: bool, disabled: bool, principal: int)

  function KeyIdOf(i: Issued): Uuid { FromRandomBytes(i.key) }

  function Minted(i: Issued): string { TokenOf(KeyIdOf(i), i.secret) }

  function RecordOf(sha: Sha256, i: Issued): LookupRecord {
    LookupRecord(sha(Minted(i)), i.revoked, i.disabled, i.principal)
  }

  /** The lookup answers with the record of the credential that has the key, if
      one was issued. */
  ghost predicate Stores(sha: Sha256, lookup: Lookup, issued: set<Issued>) {
    && (forall i <- issued :: |i.secret| == SECRET_BYTES && lookup(KeyIdOf(i)) == Ok(Some(RecordOf(sha, i))))
    && (forall k: Uuid :: (forall i <- issued :: KeyIdOf(i) != k) ==> lookup(k) == Ok(None))
  }

  /** A presented text: one that does not parse is refused without a lookup. */
  function Present(sha: Sha256, lookup: Lookup, text: string): Result<int, AuthenticationError> {
    match Parse(sha, text)
    case Err(_) => Err(Rejected)
    case Ok(candidate) => Authenticate(lookup, candidate)
  }

  /** Of all texts, those accepted are exactly the tokens that were issued and
      are neither revoked nor disabled, each for its own principal; every other
      text is rejected. The digest is only assumed not to confuse the text with
      an issued token. */
  lemma LiveTokensAuthenticateExactly(sha: Sha256, lookup: Lookup, issued: set<Issued>, text: string)
    requires Stores(sha, lookup, issued)
    requires forall i <- issued :: sha(text) == sha(Minted(i)) ==> text == Minted(i)
    ensures forall p :: Present(sha, lookup, text) == Ok(p) <==>
      exists i :: i in issued && text == Minted(i) && !i.revoked && !i.disabled && i.principal == p
    ensures Present(sha, lookup, text).Err? ==> Present(sha, lookup, text).error == Rejected
  {
    hide TokenOf, FromRandomBytes, Parse;
    forall i | i in issued && text == Minted(i)
      ensures Parse(sha, text) == Ok(Candidate(KeyIdOf(i), sha(text)))
    {
      IssuedTokenParses(sha, i.key, i.secret);
    }
    if Parse(sha, text).Ok? {
      var candidate := Parse(sha, text).value;
      ParsedVerifier(sha, text);
      if i :| i in issued && KeyIdOf(i) == candidate.keyId {
        assert lookup(candidate.keyId) == Ok(Some(RecordOf(sha, i)));
      } else {
        assert lookup(candidate.keyId) == Ok(None);
      }
    }
  }

  lemma ParsedVerifier(sha: Sha256, text: string)
    ensures Parse(sha, text).Ok? ==> Parse(sha, text).value.verifier == sha(text)
  {}

  /** When the lookup fails the answer is `Unavailable`, for exactly the texts
      that parse; nothing else is, and no such text is let in. */
  lemma FailedLookupIsUnavailable(sha: Sha256, lookup: Lookup, text: string)
    ensures Present(sha, lookup, text) == Err(Unavailable) <==>
      Parse(sha, text).Ok? && lookup(Parse(sha, text).value.keyId).Err?
    ensures Parse(sha, text).Err? ==> Present(sha, lookup, text) == Err(Rejected)
  {
    hide Parse;
  }

  // ------------------------------------------------------- UUIDs, exactly

  /** Section 4 of RFC 9562: eight, four, four, four and twelve digits. */
  lemma HyphenatedExactly(u: Uuid)
    ensures Hyphenated(u) == HexOf(u[..4]) + ("-" + (HexOf(u[4..6]) + ("-" + (HexOf(u[6..8]) + ("-" + (HexOf(u[8..10]) + ("-" + HexOf(u[10..]))))))))
  {
    hide HexOf;
    var text := Hyphenated(u);
    assert text[..8] == HexOf(u[..4]) by { HexPart(u, 0, 4, 0, 8); }
    assert text[9..13] == HexOf(u[4..6]) by { HexPart(u, 4, 6, 9, 13); }
    assert text[14..18] == HexOf(u[6..8]) by { HexPart(u, 6, 8, 14, 18); }
    assert text[19..23] == HexOf(u[8..10]) by { HexPart(u, 8, 10, 19, 23); }
    assert text[24..] == HexOf(u[10..]) by { HexPart(u, 10, 16, 24, 36); assert u[10..16] == u[10..]; assert text[24..36] == text[24..]; }
    assert text[8..9] == "-" && text[13..14] == "-" && text[18..19] == "-" && text[23..24] == "-";
    FivePieces(text);
  }

  lemma FivePieces(text: string)
    requires |text| == 36
    ensures text == text[..8] + (text[8..9] + (text[9..13] + (text[13..14] + (text[14..18] + (text[18..19] + (text[19..23] + (text[23..24] + text[24..])))))))
  {
    assert text[23..] == text[23..24] + text[24..];
    assert text[19..] == text[19..23] + text[23..];
    assert text[18..] == text[18..19] + text[19..];
    assert text[14..] == text[14..18] + text[18..];
    assert text[13..] == text[13..14] + text[14..];
    assert text[9..] == text[9..13] + text[13..];
    assert text[8..] == text[8..9] + text[9..];
    assert text == text[..8] + text[8..];
  }

  /** Bytes `a` to `b` stand at characters `p` to `q`, without a hyphen. */
  lemma HexPart(u: Uuid, a: nat, b: nat, p: nat, q: nat)
    requires a <= b <= 16 && q == p + 2 * (b - a) <= 36
    requires forall k :: p <= k < q ==> !IsHyphen(k) && DigitIndex(k) == 2 * a + (k - p)
    ensures Hyphenated(u)[p..q] == HexOf(u[a..b])
  {
    var part := u[a..b];
    forall k | 0 <= k < 2 * (b - a) ensures Hyphenated(u)[p..q][k] == HexOf(part)[k] {
      assert (2 * a + k) / 2 == a + k / 2 && (2 * a + k) % 2 == k % 2;
      assert part[k / 2] == u[a + k / 2];
    }
  }

  function LowerCased(text: string): string {
    seq(|text|, i requires 0 <= i < |text| => if 'A' <= text[i] <= 'F' then text[i] + (32 as char) else text[i])
  }

  /** A text of thirty-six characters parses to an identifier exactly when, in
      lower case, it is the hyphenated text of it. */
  lemma ParseUuidExactly(text: string, u: Uuid)
    ensures ParseUuid(text) == Some(u) <==> LowerCased(text) == Hyphenated(u)
  {
    if LowerCased(text) == Hyphenated(u) {
      UuidRoundTrip(u);
      LowerCaseParsesAlike(text);
    }
    if ParseUuid(text) == Some(u) {
      forall p: nat | p < 36 ensures LowerCased(text)[p] == Hyphenated(u)[p] { LowerCaseAt(text, u, p); }
    }
  }

  lemma LowerCaseValue(c: char)
    ensures var d := if 'A' <= c <= 'F' then c + (32 as char) else c;
      && HexValue(d) == HexValue(c)
      && (HexValue(c).Some? ==> HexValue(c).value < 16 && d == DIGITS[HexValue(c).value])
      && (c == '-' <==> d == '-')
  {}

  lemma LowerCaseParsesAlike(text: string)
    ensures ParseUuid(LowerCased(text)) == ParseUuid(text)
  {
    hide HexValue;
    var lower := LowerCased(text);
    forall p | 0 <= p < |text| ensures HexValue(lower[p]) == HexValue(text[p]) && (lower[p] == '-' <==> text[p] == '-') {
      LowerCaseValue(text[p]);
    }
    assert IsHyphenatedUuid(lower) <==> IsHyphenatedUuid(text);
    if IsHyphenatedUuid(text) {
      hide TextPosition, IsHyphenatedUuid;
      forall i: nat | i < 16 ensures ByteAt(lower, i) == ByteAt(text, i) {
        PositionOfDigit(2 * i);
        PositionOfDigit(2 * i + 1);
        LengthOfUuidText(text);
      }
      assert ParseUuid(lower).value == ParseUuid(text).value;
    }
  }

  lemma LengthOfUuidText(text: string)
    requires IsHyphenatedUuid(text)
    ensures |text| == 36
  {}

  lemma PositionOfIndex(p: nat)
    requires p < 36 && !IsHyphen(p)
    ensures DigitIndex(p) < 32 && TextPosition(DigitIndex(p)) == p
  {}

  lemma ParsedNibble(text: string, u: Uuid, k: nat)
    requires ParseUuid(text) == Some(u) && k < 32
    ensures IsHyphenatedUuid(text) && Nibble(text, k) == NibbleOf(u, k)
  {
    hide HexValue, TextPosition, IsHyphenatedUuid;
    assert u[k / 2] == ByteAt(text, k / 2);
    assert 2 * (k / 2) + k % 2 == k;
  }

  lemma LowerCaseAt(text: string, u: Uuid, p: nat)
    requires ParseUuid(text) == Some(u) && p < 36
    ensures |text| == 36 && LowerCased(text)[p] == Hyphenated(u)[p]
  {
    LengthOfUuidText(text);
    LowerCaseValue(text[p]);
    if !IsHyphen(p) {
      PositionOfIndex(p);
      ParsedNibble(text, u, DigitIndex(p));
      hide HexValue, TextPosition, DigitIndex;
      assert Nibble(text, DigitIndex(p)) == HexValue(text[p]).value;
    }
  }
}
