/**
 Base-58 decoding as done in place on a growing byte vector, against positional notation and the
 standard encoder (sections 3 and 4 of draft-msporny-base58).
 */
module Base58 {
  import opened Prelude

  // 58 characters in code order; '0', 'I', 'O' and 'l' are not among them.
  const ALPHABET: string := "123456789" + "ABCDEFGH" + "JKLMN" + "PQRSTUVWXYZ" + "abcdefghijk" + "mnopqrstuvwxyz"

  // ---------------------------------------------------------------- positional notation

  /** The number a digit string stands for, most significant digit first. */
  function Value(ds: seq<nat>, base: nat): nat {
    if ds == [] then 0 else Value(ds[..|ds| - 1], base) * base + ds[|ds| - 1]
  }

  /** The digits of n without leading zeros; none for zero. */
  function Minimal(n: nat, base: nat): seq<nat>
    requires base >= 2
  {
    if n == 0 then [] else
      QuotientSmaller(n, base);
      Minimal(n / base, base) + [n % base]
  }

  lemma QuotientSmaller(n: nat, base: nat)
    requires n > 0 && base >= 2
    ensures 0 <= n / base < n
  {
  }

  function LeadingZeros(ds: seq<nat>): (k: nat)
    ensures k <= |ds| && (k < |ds| ==> ds[k] != 0)
    ensures forall i :: 0 <= i < k ==> ds[i] == 0
  {
    if ds == [] || ds[0] != 0 then 0 else 1 + LeadingZeros(ds[1..])
  }

  predicate DigitsOf(ds: seq<nat>, base: nat) { forall i :: 0 <= i < |ds| ==> ds[i] < base }

  lemma ValueEmpty(base: nat)
    ensures Value([], base) == 0
  {
  }

  lemma ValueAppend(ds: seq<nat>, d: nat, base: nat)
    ensures Value(ds + [d], base) == Value(ds, base) * base + d
  {
    assert (ds + [d])[..|ds|] == ds;
  }

  lemma MinimalStep(n: nat, base: nat)
    requires base >= 2 && n > 0
    ensures 0 <= n / base < n && n == n / base * base + n % base && 0 <= n % base < base
    ensures Minimal(n, base) == Minimal(n / base, base) + [n % base]
  {
    QuotientSmaller(n, base);
  }

  lemma {:induction false} ValueOfMinimal(n: nat, base: nat)
    requires base >= 2
    ensures Value(Minimal(n, base), base) == n && DigitsOf(Minimal(n, base), base)
    ensures n > 0 ==> Minimal(n, base) != [] && Minimal(n, base)[0] != 0
    ensures LeadingZeros(Minimal(n, base)) == 0
  {
    hide LeadingZeros, Value, Minimal;
    ValueEmpty(base);
    MinimalIsEmpty(0, base);
    if n == 0 {
    } else {
      MinimalStep(n, base);
      ValueOfMinimal(n / base, base);
      ValueAppend(Minimal(n / base, base), n % base, base);
      if n / base == 0 { assert Minimal(n, base) == [] + [n % base] == [n]; }
    }
  }

  /** In front of a digit string a digit counts for a power of the base. */
  lemma {:induction false} ValueIsPositional(d: nat, ds: seq<nat>, base: nat)
    ensures Value([d] + ds, base) == d * Pow(base, |ds|) + Value(ds, base)
  {
    var all := [d] + ds;
    if ds == [] {
      assert all[..0] == [];
    } else {
      var init, last := ds[..|ds| - 1], ds[|ds| - 1];
      assert all[..|ds|] == [d] + init;
      ValueIsPositional(d, init, base);
      TimesPow(d, Pow(base, |init|), Value(init, base), base);
    }
  }

  lemma TimesPow(d: nat, p: nat, v: nat, base: nat)
    ensures (d * p + v) * base == d * (base * p) + v * base
  {
  }

  /** The minimal digits of a digit string's value are the string without its leading zeros. */
  lemma {:induction false} MinimalOfValue(ds: seq<nat>, base: nat)
    requires base >= 2 && DigitsOf(ds, base)
    ensures Minimal(Value(ds, base), base) == ds[LeadingZeros(ds)..]
  {
    hide LeadingZeros, Value, Minimal;
    MinimalIsEmpty(0, base);
    if LeadingZeros(ds) == |ds| {
      assert ds == Zeros(|ds|) + [];
      ValueOfZerosInFront(|ds|, [], base);
      ValueEmpty(base);
    } else {
      var init, last := ds[..|ds| - 1], ds[|ds| - 1];
      MinimalOfValue(init, base);
      ZerosOfInit(ds);
      assert ds == init + [last];
      ValueAppend(init, last, base);
      PositiveValue(Value(init, base), last, base);
      MinimalAppend(Value(init, base), last, base);
    }
  }

  lemma PositiveValue(high: nat, last: nat, base: nat)
    requires base >= 2 && (high > 0 || last > 0)
    ensures high * base + last > 0
  {
  }

  lemma MinimalAppend(high: nat, last: nat, base: nat)
    requires base >= 2 && last < base && high * base + last > 0
    ensures Minimal(high * base + last, base) == Minimal(high, base) + [last]
  {
    DivModUnique(high, base, last);
  }

  lemma MinimalIsEmpty(n: nat, base: nat)
    requires base >= 2 && n == 0
    ensures Minimal(n, base) == []
  {
  }

  /** Dropping the last digit changes the leading zeros only if it is part of them. */
  lemma ZerosOfInit(ds: seq<nat>)
    requires ds != []
    ensures LeadingZeros(ds[..|ds| - 1]) == Min(LeadingZeros(ds), |ds| - 1)
  {
    hide LeadingZeros;
    var init := ds[..|ds| - 1];
    var a, b := LeadingZeros(init), LeadingZeros(ds);
    assert a < |init| ==> ds[a] == init[a] != 0;
    assert b < |init| ==> init[b] == ds[b] != 0;
  }

  /** From one base to another, keeping the leading zeros one for one. */
  function Convert(ds: seq<nat>, from: nat, to: nat): seq<nat>
    requires to >= 2
  {
    Zeros(LeadingZeros(ds)) + Minimal(Value(ds, from), to)
  }

  lemma ZerosInFront(k: nat, ds: seq<nat>, base: nat)
    requires LeadingZeros(ds) == 0
    ensures LeadingZeros(Zeros(k) + ds) == k && Value(Zeros(k) + ds, base) == Value(ds, base)
  {
    ValueOfZerosInFront(k, ds, base);
    var all := Zeros(k) + ds;
    assert ds != [] ==> all[k] == ds[0] != 0;
    assert forall i :: 0 <= i < k ==> all[i] == 0;
  }

  lemma {:induction false} ValueOfZerosInFront(k: nat, ds: seq<nat>, base: nat)
    ensures Value(Zeros(k) + ds, base) == Value(ds, base)
    decreases |ds|, k
  {
    var all := Zeros(k) + ds;
    if ds != [] {
      assert all[..|all| - 1] == Zeros(k) + ds[..|ds| - 1];
      ValueOfZerosInFront(k, ds[..|ds| - 1], base);
    } else if k > 0 {
      assert all[..|all| - 1] == Zeros(k - 1) + [];
      ValueOfZerosInFront(k - 1, [], base);
    }
  }

  /** Converting there and back is the identity on every digit string. */
  lemma {:induction false} ConvertRoundTrip(ds: seq<nat>, from: nat, to: nat)
    requires from >= 2 && to >= 2 && DigitsOf(ds, from)
    ensures DigitsOf(Convert(ds, from, to), to)
    ensures Convert(Convert(ds, from, to), to, from) == ds
  {
    var k, n := LeadingZeros(ds), Value(ds, from);
    ValueOfMinimal(n, to);
    ZerosInFront(k, Minimal(n, to), to);
    MinimalOfValue(ds, from);
    assert ds == Zeros(k) + ds[k..];
  }

  // ---------------------------------------------------------------- the alphabet

  function Position(alphabet: string, c: char): (r: Option<nat>)
    ensures r.Some? ==> r.value < |alphabet| && alphabet[r.value] == c
    ensures r.None? ==> c !in alphabet
  {
    if alphabet == "" then None
    else if alphabet[0] == c then Some(0)
    else
      var rest := Position(alphabet[1..], c);
      if rest.Some? then Some(rest.value + 1) else None
  }

  predicate IsDigit(c: char) { c in ALPHABET }

  function DigitOf(c: char): (r: Option<nat>)
    ensures r.Some? <==> IsDigit(c)
    ensures r.Some? ==> r.value < 58
  {
    Position(ALPHABET, c)
  }

  predicate IsBase58(s: string) { forall i :: 0 <= i < |s| ==> IsDigit(s[i]) }

  function DigitsFrom(s: string): (ds: seq<nat>)
    requires IsBase58(s)
    ensures |ds| == |s| && DigitsOf(ds, 58)
    ensures forall i :: 0 <= i < |s| ==> ds[i] == DigitOf(s[i]).value
  {
    seq(|s|, i requires 0 <= i < |s| => DigitOf(s[i]).value)
  }

  function Spell(ds: seq<nat>): (s: string)
    requires DigitsOf(ds, 58)
    ensures |s| == |ds| && forall i :: 0 <= i < |ds| ==> s[i] == Letter(ds[i])
  {
    seq(|ds|, i requires 0 <= i < |ds| => Letter(ds[i]))
  }

  function Letter(d: nat): char
    requires d < 58
  {
    ALPHABET[d]
  }

  /** The digits and letters of ASCII, but for zero, capital I, capital O and small l. */
  predicate Base58Char(c: char) {
    && ('0' <= c <= '9' || 'A' <= c <= 'Z' || 'a' <= c <= 'z')
    && c != '0' && c != 'I' && c != 'O' && c != 'l'
  }

  /** What each of the six stretches of consecutive characters starts at. */
  function DigitByStretch(c: char): nat
    requires Base58Char(c)
  {
    if c <= '9' then (c - '1') as nat
    else if c <= 'H' then (c - 'A') as nat + 9
    else if c <= 'N' then (c - 'J') as nat + 17
    else if c <= 'Z' then (c - 'P') as nat + 22
    else if c <= 'k' then (c - 'a') as nat + 33
    else (c - 'm') as nat + 44
  }

  /** The number of such characters with a code below n. */
  function CharsBelow(n: nat): nat {
    if n == 0 then 0
    else CharsBelow(n - 1) + if n <= 0x7F && Base58Char((n - 1) as char) then 1 else 0
  }

  lemma {:induction false} CharsBelowIs(n: nat)
    requires n <= 0x7B
    ensures CharsBelow(n) ==
      if n <= 0x31 then 0 else if n <= 0x3A then n - 0x31
      else if n <= 0x41 then 9 else if n <= 0x49 then n - 0x41 + 9
      else if n <= 0x4A then 17 else if n <= 0x4F then n - 0x4A + 17
      else if n <= 0x50 then 22 else if n <= 0x5B then n - 0x50 + 22
      else if n <= 0x61 then 33 else if n <= 0x6C then n - 0x61 + 33
      else if n <= 0x6D then 44 else n - 0x6D + 44
  {
    if n == 0 {
    } else {
      CharsBelowIs(n - 1);
    }
  }

  lemma LetterIs(d: nat)
    requires d < 58
    ensures Base58Char(Letter(d)) && DigitByStretch(Letter(d)) == d
  {
    hide Letter, Base58Char;
    if d < 17 { LetterIsLow(d); } else if d < 33 { LetterIsMiddle(d); } else { LetterIsHigh(d); }
  }

  lemma LetterIsLow(d: nat)
    requires d < 17
    ensures Base58Char(Letter(d)) && DigitByStretch(Letter(d)) == d
  {
  }

  lemma LetterIsMiddle(d: nat)
    requires 17 <= d < 33
    ensures Base58Char(Letter(d)) && DigitByStretch(Letter(d)) == d
  {
  }

  lemma LetterIsHigh(d: nat)
    requires 33 <= d < 58
    ensures Base58Char(Letter(d)) && DigitByStretch(Letter(d)) == d
  {
  }

  lemma StretchInjective(a: char, b: char)
    requires Base58Char(a) && Base58Char(b) && DigitByStretch(a) == DigitByStretch(b)
    ensures a == b
  {
  }

  lemma StretchIs(c: char)
    requires Base58Char(c)
    ensures DigitByStretch(c) < 58 && Letter(DigitByStretch(c)) == c
  {
    hide Letter;
    LetterIs(DigitByStretch(c));
    StretchInjective(Letter(DigitByStretch(c)), c);
  }

  /**
   The alphabet is exactly those characters, and a character's digit is the number of them below it.
   */
  lemma {:induction false} DigitIsCharsBelow(c: char)
    ensures IsDigit(c) <==> Base58Char(c)
    ensures Base58Char(c) ==> DigitOf(c) == Some(CharsBelow(c as nat))
  {
    hide Letter, IsDigit, DigitOf;
    if Base58Char(c) {
      StretchIs(c);
      LetterRoundTrip(DigitByStretch(c));
      CharsBelowIs(c as nat);
      assert CharsBelow(c as nat) == DigitByStretch(c);
    }
    if IsDigit(c) {
      DigitRoundTrip(c);
      LetterIs(DigitOf(c).value);
    }
  }

  /** Digits and letters correspond one to one. */
  lemma LetterRoundTrip(d: nat)
    requires d < 58
    ensures DigitOf(Letter(d)) == Some(d)
  {
    LetterIsDigit(d);
    hide Letter, IsDigit, DigitOf, DigitByStretch, Base58Char;
    DigitRoundTrip(Letter(d));
    LetterIs(d);
    LetterIs(DigitOf(Letter(d)).value);
  }

  lemma LetterIsDigit(d: nat)
    requires d < 58
    ensures IsDigit(Letter(d))
  {
  }

  lemma DigitRoundTrip(c: char)
    requires IsDigit(c)
    ensures Letter(DigitOf(c).value) == c
  {
  }

  lemma SpellRoundTrip(ds: seq<nat>)
    requires DigitsOf(ds, 58)
    ensures IsBase58(Spell(ds)) && DigitsFrom(Spell(ds)) == ds
  {
    hide DigitOf, Letter, IsDigit;
    forall i | 0 <= i < |ds|
      ensures DigitOf(Spell(ds)[i]) == Some(ds[i])
    {
      LetterRoundTrip(ds[i]);
    }
  }

  // ---------------------------------------------------------------- encoding and decoding

  /** The standard encoder: a '1' for each leading zero byte, then the base-58 digits. */
  function Encode(bytes: Bytes): string {
    ConvertRoundTrip(bytes, 256, 58);
    Spell(Convert(bytes, 256, 58))
  }

  /** The bytes a valid string stands for: a zero byte per leading '1', then the big-endian value. */
  function Decoded(s: string): Bytes
    requires IsBase58(s)
  {
    ConvertRoundTrip(DigitsFrom(s), 58, 256);
    Convert(DigitsFrom(s), 58, 256)
  }

  /** Decoding undoes the standard encoder on all bytes, and encoding undoes decoding on all valid strings. */
  lemma {:induction false} DecodeInvertsEncode(bytes: Bytes)
    ensures IsBase58(Encode(bytes)) && Decoded(Encode(bytes)) == bytes
  {
    ConvertRoundTrip(bytes, 256, 58);
    SpellRoundTrip(Convert(bytes, 256, 58));
  }

  lemma {:induction false} EncodeInvertsDecode(s: string)
    requires IsBase58(s)
    ensures Encode(Decoded(s)) == s
  {
    hide DigitOf, Letter, IsDigit;
    ConvertRoundTrip(DigitsFrom(s), 58, 256);
    forall i | 0 <= i < |s|
      ensures Spell(DigitsFrom(s))[i] == s[i]
    {
      DigitRoundTrip(s[i]);
    }
    assert Spell(DigitsFrom(s)) == s;
  }

  // ---------------------------------------------------------------- the in-place loop

  /** out * 58 + carry from the last byte up: the new bytes and the carry out of the first. */
  function MulAdd(out: Bytes, carry: nat): (Bytes, nat) {
    if out == [] then ([], carry)
    else
      var acc := out[|out| - 1] * 58 + carry;
      var (high, c) := MulAdd(out[..|out| - 1], acc / 256);
      (high + [acc % 256], c)
  }

  /** The carry stays below 58, so a digit adds at most one byte; the value is 58 times plus the digit. */
  lemma {:induction false} MulAddValue(out: Bytes, carry: nat)
    requires carry <= 57
    ensures var (r, c) := MulAdd(out, carry);
      c <= 57 && |r| == |out| && Value([c] + r, 256) == Value(out, 256) * 58 + carry
  {
    if out != [] {
      var n := |out| - 1;
      var acc := out[n] * 58 + carry;
      MulAddValue(out[..n], acc / 256);
      var (high, c) := MulAdd(out[..n], acc / 256);
      var r := high + [acc % 256];
      assert ([c] + r)[..|r|] == [c] + high;
      assert Value(out, 256) == Value(out[..n], 256) * 256 + out[n];
    } else {
      assert [carry][..0] == [];
      assert [carry] + [] == [carry];
    }
  }

  /** One step of the inner loop: byte j is done, the carry moves to the bytes before it. */
  lemma MulAddStep(out: Bytes, j: nat, carry: nat)
    requires j < |out|
    ensures var acc: nat := out[j] as nat * 58 + carry; var out' := out[j := acc % 256];
      && out'[..j] == out[..j]
      && MulAddRest(out, j + 1, carry) == MulAddRest(out', j, acc / 256)
  {
    var acc: nat := out[j] as nat * 58 + carry;
    var out' := out[j := acc % 256];
    assert out[..j + 1][..j] == out[..j];
    var (high, c) := MulAdd(out[..j], acc / 256);
    assert out'[j..] == [acc % 256] + out[j + 1..];
    assert high + [acc % 256] + out[j + 1..] == high + out'[j..];
  }

  /** `MulAdd` on the bytes before j, in front of the bytes from j on. */
  function MulAddRest(out: Bytes, j: nat, carry: nat): (Bytes, nat)
    requires j <= |out|
  {
    var (high, c) := MulAdd(out[..j], carry);
    (high + out[j..], c)
  }

  method DecodeBase58(value: string) returns (r: Result<Bytes>)
    ensures r.Ok? <==> IsBase58(value)
    ensures r.Ok? ==> r.value == Decoded(value)
  {
    hide Value, DigitOf, IsDigit, LeadingZeros, Minimal;
    var out: Bytes := [0];
    ValueOfNothing();
    for i := 0 to |value|
      invariant IsBase58(value[..i])
      invariant |out| <= i + 1
      invariant Value(out, 256) == Value(DigitsFrom(value[..i]), 58)
    {
      var digit := DigitOf(value[i]);
      if digit.None? { return Err(ValidationFailed); }
      ReadDigit(value, i);
      out := PushDigit(out, digit.value);
    }
    assert value[..|value|] == value;
    var leadingZeroes := LeadingZeros(DigitsFrom(value));
    var firstNonZero := LeadingZeros(out);
    MinimalOfValue(out, 256);
    r := Ok(Zeros(leadingZeroes) + out[firstNonZero..]);
  }

  lemma ValueOfNothing()
    ensures Value([0], 256) == 0 == Value([], 58)
  {
    assert [0][..0] == [];
  }

  lemma ReadDigit(value: string, i: nat)
    requires i < |value| && IsBase58(value[..i]) && IsDigit(value[i])
    ensures IsBase58(value[..i + 1])
    ensures Value(DigitsFrom(value[..i + 1]), 58)
         == Value(DigitsFrom(value[..i]), 58) * 58 + DigitOf(value[i]).value
  {
    hide Value, DigitOf, IsDigit;
    assert DigitsFrom(value[..i + 1]) == DigitsFrom(value[..i]) + [DigitOf(value[i]).value];
    ValueAppend(DigitsFrom(value[..i]), DigitOf(value[i]).value, 58);
  }

  /** The body of the decoding loop for one digit. */
  method PushDigit(bytes: Bytes, digit: nat) returns (out: Bytes)
    requires digit < 58
    ensures |bytes| <= |out| <= |bytes| + 1
    ensures Value(out, 256) == Value(bytes, 256) * 58 + digit
  {
    hide Value, MulAdd;
    out := bytes;
    MulAddValue(bytes, digit);
    var carry: nat := digit;
    var j := |out|;
    assert out[..j] == out && out[j..] == [];
    assert MulAdd(bytes, digit).0 + [] == MulAdd(bytes, digit).0;
    while j > 0
      invariant 0 <= j <= |out| == |bytes|
      invariant MulAdd(bytes, digit) == MulAddRest(out, j, carry)
    {
      j := j - 1;
      MulAddStep(out, j, carry);
      var acc: nat := out[j] as nat * 58 + carry;
      out := out[j := acc % 256];
      carry := acc / 256;
    }
    NothingBefore(out, carry);
    while carry > 0
      invariant carry <= 57
      invariant Value(bytes, 256) * 58 + digit == Value(if carry > 0 then [carry] + out else out, 256)
      invariant |out| == |bytes| || (carry == 0 && |out| == |bytes| + 1)
    {
      out := [carry % 256] + out;
      carry := carry / 256;
    }
  }

  lemma NothingBefore(out: Bytes, carry: nat)
    ensures MulAddRest(out, 0, carry) == (out, carry)
    ensures Value([0] + out, 256) == Value(out, 256)
  {
    assert out[..0] == [] && out[0..] == out && [] + out == out;
    ValueOfZerosInFront(1, out, 256);
    assert Zeros(1) == [0];
  }
}
