/** Hexadecimal text: byte strings two lower-case digits a byte, and fixed-width numbers. */
module Hex {
  import opened Prelude

  function Digit(n: nat): char
    requires n < 16
  {
    if n < 10 then '0' + n as char else 'a' + (n - 10) as char
  }

  /** Both cases are accepted. */
  function DigitValue(c: char): (r: Option<nat>)
    ensures r.Some? ==> r.value < 16
  {
    if '0' <= c <= '9' then Some((c - '0') as nat)
    else if 'a' <= c <= 'f' then Some((c - 'a') as nat + 10)
    else if 'A' <= c <= 'F' then Some((c - 'A') as nat + 10)
    else None
  }

  lemma DigitRoundTrip(n: nat)
    requires n < 16
    ensures DigitValue(Digit(n)) == Some(n) && Digit(n) != 'x' && Digit(n) != '+'
  {
  }

  const DIGITS: string := "0123456789abcdef"

  lemma DigitIs(n: nat)
    requires n < 16
    ensures |DIGITS| == 16 && Digit(n) == DIGITS[n]
  {
  }

  /** Every accepted digit: those sixteen, or the capital of a letter among them. */
  lemma DigitValueIs(c: char)
    ensures DigitValue(c) ==
      if '0' <= c <= '9' then Some(c as nat - 48)
      else if 'a' <= c <= 'f' then Some(c as nat - 87)
      else if 'A' <= c <= 'F' then Some(c as nat - 55)
      else None
  {
  }

  // ---------------------------------------------------------------- byte strings

  function Encode(b: Bytes): string {
    if b == [] then "" else [Digit(b[0] / 16), Digit(b[0] % 16)] + Encode(b[1..])
  }

  function Decode(s: string): Option<Bytes> {
    if s == "" then Some([])
    else if |s| == 1 then None
    else
      match (DigitValue(s[0]), DigitValue(s[1]), Decode(s[2..]))
      case (Some(hi), Some(lo), Some(rest)) => Some([hi * 16 + lo] + rest)
      case _ => None
  }

  lemma {:induction false} RoundTrip(b: Bytes)
    ensures Decode(Encode(b)) == Some(b) && |Encode(b)| == 2 * |b|
  {
    if b == [] {
    } else {
      RoundTrip(b[1..]);
      DigitRoundTrip(b[0] / 16);
      DigitRoundTrip(b[0] % 16);
      assert Encode(b)[2..] == Encode(b[1..]);
      assert [b[0]] + b[1..] == b;
    }
  }

  /** Two digits a byte, the high half first. */
  lemma {:induction false} EncodedDigits(b: Bytes, i: nat)
    requires i < |b|
    ensures |Encode(b)| == 2 * |b|
    ensures Encode(b)[2 * i] == DIGITS[b[i] / 16] && Encode(b)[2 * i + 1] == DIGITS[b[i] % 16]
  {
    hide Digit;
    RoundTrip(b);
    DigitIs(b[i] / 16);
    DigitIs(b[i] % 16);
    if i == 0 {
    } else {
      EncodedDigits(b[1..], i - 1);
      assert Encode(b)[2..] == Encode(b[1..]);
      assert Encode(b)[2..][2 * (i - 1)] == Encode(b)[2 * i] && Encode(b)[2..][2 * (i - 1) + 1] == Encode(b)[2 * i + 1];
    }
  }

  /** `trim_start_matches("0x")`: every leading "0x" goes. */
  function TrimPrefix(s: string): string {
    if |s| >= 2 && s[0] == '0' && s[1] == 'x' then TrimPrefix(s[2..]) else s
  }

  function EncodePrefixed(b: Bytes): string { "0x" + Encode(b) }

  function DecodePrefixed(s: string): Option<Bytes> { Decode(TrimPrefix(s)) }

  /** A prefix is ignored, however often it is written, and text without one is read as it is. */
  lemma PrefixesAreIgnored(s: string)
    ensures DecodePrefixed("0x" + s) == DecodePrefixed(s)
    ensures |s| < 2 || s[0] != '0' || s[1] != 'x' ==> DecodePrefixed(s) == Decode(s)
  {
    hide Decode;
    assert ("0x" + s)[2..] == s;
  }

  /** Digits never contain an x, so trimming stops after the one prefix that was written. */
  lemma PrefixedRoundTrip(b: Bytes)
    ensures DecodePrefixed(EncodePrefixed(b)) == Some(b)
  {
    RoundTrip(b);
    if b != [] { DigitRoundTrip(b[0] % 16); }
    assert EncodePrefixed(b)[2..] == Encode(b);
    assert TrimPrefix(Encode(b)) == Encode(b);
  }

  // ---------------------------------------------------------------- fixed-width numbers

  /** The width low hex digits of n, most significant first. */
  function Digits(n: nat, width: nat): (s: string)
    ensures |s| == width
  {
    if width == 0 then "" else Digits(n / 16, width - 1) + [Digit(n % 16)]
  }

  /** A fixed-width number shows its digits from the highest on, behind "0x". */
  lemma {:induction false} NumericHexDigits(n: nat, width: nat, i: nat)
    requires i < width
    ensures |NumericHex(n, width)| == width + 2 && NumericHex(n, width)[..2] == "0x"
    ensures DigitAt(n, 16, width - 1 - i) < 16 && NumericHex(n, width)[i + 2] == DIGITS[DigitAt(n, 16, width - 1 - i)]
  {
    DigitsAre(n, width, i);
  }

  lemma {:induction false} DigitsAre(n: nat, width: nat, i: nat)
    requires i < width
    ensures DigitAt(n, 16, width - 1 - i) < 16 && Digits(n, width)[i] == DIGITS[DigitAt(n, 16, width - 1 - i)]
  {
    hide DigitAt, Digit;
    if i == width - 1 {
      LowestDigit(n);
      DigitIs(n % 16);
    } else {
      DigitsAre(n / 16, width - 1, i);
      DigitAbove(n, 16, width - 2 - i);
    }
  }

  lemma LowestDigit(n: nat)
    ensures DigitAt(n, 16, 0) == n % 16
  {
  }

  /** The number a string of hex digits stands for. */
  function Number(s: string): Option<nat> {
    if s == "" then Some(0)
    else
      match (Number(s[..|s| - 1]), DigitValue(s[|s| - 1]))
      case (Some(high), Some(low)) => Some(high * 16 + low)
      case _ => None
  }

  /** `from_str_radix(_, 16)` on an unsigned type: a leading plus sign is allowed. */
  function FromRadix16(s: string): Option<nat> {
    if s == "" then None
    else if s[0] == '+' then (if |s| == 1 then None else Number(s[1..]))
    else Number(s)
  }

  /** `numeric_hex_u32` and `numeric_hex_u128`, for 8 and 32 digits. */
  function NumericHex(n: nat, width: nat): string { "0x" + Digits(n, width) }

  /** `json_numeric_hex_u32` and `json_numeric_hex_u128`. */
  function ParseNumericHex(s: string, width: nat): Option<nat> {
    if |s| < 2 || s[0] != '0' || s[1] != 'x' || |s| - 2 != width then None else FromRadix16(s[2..])
  }

  lemma NumberAppend(s: string, c: char, high: nat, low: nat)
    requires Number(s) == Some(high) && DigitValue(c) == Some(low)
    ensures Number(s + [c]) == Some(high * 16 + low)
  {
    assert (s + [c])[..|s|] == s;
  }

  lemma DigitsRoundTrip(n: nat, width: nat)
    requires n < Pow(16, width)
    ensures Number(Digits(n, width)) == Some(n)
    ensures width > 0 ==> Digits(n, width)[0] != '+'
  {
    hide Number, Digit, DigitValue;
    NumberOfNothing();
    if width == 0 {
    } else {
      DigitsRoundTrip(n / 16, width - 1);
      DigitRoundTrip(n % 16);
      NumberAppend(Digits(n / 16, width - 1), Digit(n % 16), n / 16, n % 16);
    }
  }

  lemma NumberOfNothing()
    ensures Number("") == Some(0)
  {
  }

  lemma {:induction false} NumberBound(s: string)
    requires Number(s).Some?
    ensures Number(s).value < Pow(16, |s|)
  {
    if s == "" {
    } else {
      NumberBound(s[..|s| - 1]);
    }
  }

  /** A parsed number fits the width it was written in. */
  lemma ParsedFits(s: string, width: nat)
    requires width > 0 && ParseNumericHex(s, width).Some?
    ensures ParseNumericHex(s, width).value < Pow(16, width)
  {
    var ds := s[2..];
    NumberBound(if ds[0] == '+' then ds[1..] else ds);
    assert Pow(16, width) == 16 * Pow(16, width - 1);
  }

  /** Printing then parsing gives the number back, for every number that fits the width. */
  lemma {:induction false} NumericHexRoundTrip(n: nat, width: nat)
    requires 0 < width && n < Pow(16, width)
    ensures ParseNumericHex(NumericHex(n, width), width) == Some(n)
  {
    DigitsRoundTrip(n, width);
    assert NumericHex(n, width)[2..] == Digits(n, width);
  }

  lemma Widths()
    ensures Pow(16, 8) == U32_RANGE && Pow(16, 32) == U128_RANGE
  {
    assert Pow(16, 4) == 0x1_0000;
    assert Pow(16, 8) == 0x1_0000 * Pow(16, 4);
    assert Pow(16, 12) == 0x1_0000 * Pow(16, 8);
    assert Pow(16, 16) == 0x1_0000 * Pow(16, 12);
    assert Pow(16, 20) == 0x1_0000 * Pow(16, 16);
    assert Pow(16, 24) == 0x1_0000 * Pow(16, 20);
    assert Pow(16, 28) == 0x1_0000 * Pow(16, 24);
    assert Pow(16, 32) == 0x1_0000 * Pow(16, 28);
  }

  predicate LowerHex(s: string) {
    forall i :: 0 <= i < |s| ==> '0' <= s[i] <= '9' || 'a' <= s[i] <= 'f'
  }

  /** Parsing then printing gives the text back exactly when it was lower-case digits only. */
  lemma {:induction false} ParsedTextIsPrintedIff(s: string, width: nat)
    requires ParseNumericHex(s, width).Some?
    ensures NumericHex(ParseNumericHex(s, width).value, width) == s <==> LowerHex(s[2..])
  {
    var ds := s[2..];
    assert s == ['0', 'x'] + ds;
    var n := ParseNumericHex(s, width).value;
    DigitsAreLower(n, width);
    if LowerHex(ds) {
      assert ds[0] != '+';
      PrintParsed(ds);
    }
    assert NumericHex(n, width)[2..] == Digits(n, width);
  }

  /** Accepted text that printing never produces: a plus sign for a digit, and an upper-case digit. */
  lemma OtherSpellingsAreAccepted()
    ensures ParseNumericHex("0x+0000001", 8) == Some(1) && NumericHex(1, 8) != "0x+0000001"
    ensures ParseNumericHex("0x0000000A", 8) == Some(10) && NumericHex(10, 8) != "0x0000000A"
  {
    hide Number, Digits;
    NumberOf("000000", '1');
    NumberOf("0000000", 'A');
    assert "0x+0000001"[2..] == "+0000001" && "+0000001"[1..] == "000000" + ['1'];
    assert "0x0000000A"[2..] == "0000000" + ['A'];
    ParsedTextIsPrintedIff("0x+0000001", 8);
    ParsedTextIsPrintedIff("0x0000000A", 8);
    assert "0x+0000001"[2..][0] == '+' && "0x0000000A"[2..][7] == 'A';
  }

  /** The number of a digit after zeros only. */
  lemma NumberOf(zeros: string, last: char)
    requires (forall i :: 0 <= i < |zeros| ==> zeros[i] == '0') && DigitValue(last).Some?
    ensures Number(zeros + [last]) == DigitValue(last)
  {
    hide Number, DigitValue;
    NumberOfZeros(zeros);
    NumberAppend(zeros, last, 0, DigitValue(last).value);
  }

  lemma NumberOfZeros(zeros: string)
    requires forall i :: 0 <= i < |zeros| ==> zeros[i] == '0'
    ensures Number(zeros) == Some(0)
  {
  }

  lemma DigitsAreLower(n: nat, width: nat)
    ensures LowerHex(Digits(n, width))
  {
  }

  lemma {:induction false} PrintParsed(s: string)
    requires LowerHex(s) && Number(s).Some?
    ensures Digits(Number(s).value, |s|) == s
  {
    if s == "" {
    } else {
      var init, last := s[..|s| - 1], s[|s| - 1];
      PrintParsed(init);
      var high, low := Number(init).value, DigitValue(last).value;
      assert (high * 16 + low) / 16 == high && (high * 16 + low) % 16 == low;
      assert Digit(low) == last;
      assert init + [last] == s;
    }
  }
}
