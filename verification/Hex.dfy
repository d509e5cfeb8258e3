/**
 * Lowercase hexadecimal. Two crates each carry their own encoder; both are
 * proved against `HexOf`, so their digests may be compared as text.
 */
module Hex {
  import opened Text

  type Byte = b: int | 0 <= b < 256

  /** SHA-256 of the UTF-8 bytes of a text: any function at all. */
  type Sha256 = string -> seq<Byte>

  const DIGITS := "0123456789abcdef"

  /** Character `i` of the text: even positions are high nibbles. */
  function Digit(bytes: seq<Byte>, i: nat): char
    requires i < 2 * |bytes|
  {
    var b := bytes[i / 2];
    DIGITS[if i % 2 == 0 then b / 16 else b % 16]
  }

  function HexOf(bytes: seq<Byte>): string {
    seq(2 * |bytes|, i requires 0 <= i < 2 * |bytes| => Digit(bytes, i))
  }

  function HexPair(b: Byte): string { [DIGITS[b / 16], DIGITS[b % 16]] }

  lemma HexOfAppend(bytes: seq<Byte>, b: Byte)
    ensures HexOf(bytes + [b]) == HexOf(bytes) + HexPair(b)
  {
    forall i | 0 <= i < 2 * |bytes| ensures HexOf(bytes + [b])[i] == HexOf(bytes)[i] {
      assert (bytes + [b])[i / 2] == bytes[i / 2];
    }
  }

  /** `aircraft_ingest`: two table lookups for each byte. */
  method HexByTable(bytes: seq<Byte>) returns (output: string)
    ensures output == HexOf(bytes)
  {
    output := "";
    var i := 0;
    while i < |bytes|
      invariant i <= |bytes| && output == HexOf(bytes[..i])
    {
      HexOfAppend(bytes[..i], bytes[i]);
      output := output + [DIGITS[bytes[i] / 16]];
      output := output + [DIGITS[bytes[i] % 16]];
      assert bytes[..i + 1] == bytes[..i] + [bytes[i]];
      i := i + 1;
    }
    assert bytes[..i] == bytes;
  }

  /** A number in base sixteen, without leading zeros. */
  function LowerHex(n: nat): string {
    if n < 16 then [DIGITS[n]] else LowerHex(n / 16) + [DIGITS[n % 16]]
  }

  /** `aircraft_app`: each byte formatted to a width of two. */
  method HexByFormat(bytes: seq<Byte>) returns (output: string)
    ensures output == HexOf(bytes)
  {
    output := "";
    var i := 0;
    while i < |bytes|
      invariant i <= |bytes| && output == HexOf(bytes[..i])
    {
      HexOfAppend(bytes[..i], bytes[i]);
      FormattedByte(bytes[i]);
      output := output + ZeroPadded(LowerHex(bytes[i]), 2);
      assert bytes[..i + 1] == bytes[..i] + [bytes[i]];
      i := i + 1;
    }
    assert bytes[..i] == bytes;
  }

  lemma FormattedByte(b: Byte)
    ensures ZeroPadded(LowerHex(b), 2) == HexPair(b)
  {
    if b < 16 {
      assert "0" + [DIGITS[b]] == HexPair(b);
    } else {
      assert LowerHex(b) == [DIGITS[b / 16]] + [DIGITS[b % 16]];
    }
  }

  predicate IsLowerHexDigit(c: char) { c in "0123456789abcdef" }

  lemma HexShape(bytes: seq<Byte>)
    ensures |HexOf(bytes)| == 2 * |bytes|
    ensures forall i :: 0 <= i < |HexOf(bytes)| ==> IsLowerHexDigit(HexOf(bytes)[i])
  {
    forall i | 0 <= i < |HexOf(bytes)| ensures IsLowerHexDigit(HexOf(bytes)[i]) {
      var b := bytes[i / 2];
      DigitsAreHex(if i % 2 == 0 then b / 16 else b % 16);
    }
  }

  lemma DigitsAreHex(n: nat)
    requires n < 16
    ensures IsLowerHexDigit(DIGITS[n])
  {}

  lemma DigitsAreDistinct(m: nat, n: nat)
    requires m < 16 && n < 16 && DIGITS[m] == DIGITS[n]
    ensures m == n
  {}

  /** Different bytes have different text. */
  lemma HexIsInjective(a: seq<Byte>, b: seq<Byte>)
    requires HexOf(a) == HexOf(b)
    ensures a == b
  {
    assert |HexOf(a)| == 2 * |a| && |HexOf(b)| == 2 * |b|;
    forall i | 0 <= i < |a| ensures a[i] == b[i] {
      assert HexOf(a)[2 * i] == HexOf(b)[2 * i] && HexOf(a)[2 * i + 1] == HexOf(b)[2 * i + 1];
      DigitsAreDistinct(a[i] / 16, b[i] / 16);
      DigitsAreDistinct(a[i] % 16, b[i] % 16);
    }
  }

  // ------------------------------------------------------------- numerals

  /** A digit character as a number, from its place in the alphabet. */
  function ValueOf(c: char): int {
    if '0' <= c <= '9' then c as int - 48 else if 'a' <= c <= 'f' then c as int - 87 else -1
  }

  function Numeral(text: string): int {
    if text == "" then 0 else Numeral(text[..|text| - 1]) * 16 + ValueOf(text[|text| - 1])
  }

  function BigEndian(bytes: seq<Byte>): int {
    if bytes == [] then 0 else BigEndian(bytes[..|bytes| - 1]) * 256 + bytes[|bytes| - 1]
  }

  lemma DigitsHaveTheirValue(n: nat)
    requires n < 16
    ensures ValueOf(DIGITS[n]) == n
  {}

  /** The text is the number the bytes spell, in base sixteen: the high half of
      each byte first, and the first byte highest. */
  lemma {:induction false} HexIsTheNumeral(bytes: seq<Byte>)
    ensures Numeral(HexOf(bytes)) == BigEndian(bytes)
  {
    if bytes != [] {
      var n := |bytes| - 1;
      var b := bytes[n];
      HexIsTheNumeral(bytes[..n]);
      HexOfAppend(bytes[..n], b);
      assert bytes == bytes[..n] + [b];
      var head, hi, lo := HexOf(bytes[..n]), DIGITS[b / 16], DIGITS[b % 16];
      assert HexOf(bytes) == head + [hi] + [lo];
      assert (head + [hi] + [lo])[..|head| + 1] == head + [hi] && (head + [hi])[..|head|] == head;
      DigitsHaveTheirValue(b / 16);
      DigitsHaveTheirValue(b % 16);
    }
  }
}
