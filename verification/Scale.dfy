/**
 The SCALE building blocks: little-endian integers, compact integers, byte vectors. Decoders take
 the bytes still unread and give back the value with what is left.
 */
module Scale {
  import opened Prelude

  datatype Parsed<+T> = Bad | Parsed(value: T, rest: Bytes)

  type Blob = s: Bytes | |s| < 0x1_0000_0000

  function Take(b: Bytes, n: nat): Parsed<Bytes> {
    if n <= |b| then Parsed(b[..n], b[n..]) else Bad
  }

  lemma TakeRoundTrip(x: Bytes, rest: Bytes)
    ensures Take(x + rest, |x|) == Parsed(x, rest)
  {
    assert (x + rest)[..|x|] == x && (x + rest)[|x|..] == rest;
  }

  /** A tag byte in front: what follows it is untouched. */
  lemma TagRoundTrip(tag: Byte, x: Bytes, rest: Bytes)
    ensures ([tag] + x + rest)[0] == tag && ([tag] + x + rest)[1..] == x + rest
  {
  }

  lemma Reassociate(a: Bytes, b: Bytes, c: Bytes, d: Bytes, rest: Bytes)
    ensures a + (b + (c + (d + rest))) == a + b + c + d + rest
  {
  }

  // ---------------------------------------------------------------- little-endian integers

  lemma Pow256Values()
    ensures Pow(256, 1) == 0x100 && Pow(256, 2) == U16_RANGE && Pow(256, 3) == 0x100_0000 && Pow(256, 4) == U32_RANGE
    ensures Pow(256, 8) == U64_RANGE && Pow(256, 16) == U128_RANGE
  {
    assert Pow(256, 1) == 256 * Pow(256, 0);
    assert Pow(256, 2) == 256 * Pow(256, 1);
    assert Pow(256, 3) == 256 * Pow(256, 2);
    assert Pow(256, 4) == 256 * Pow(256, 3);
    assert Pow(256, 6) == 65536 * Pow(256, 4);
    assert Pow(256, 8) == 65536 * Pow(256, 6);
    assert Pow(256, 10) == 65536 * Pow(256, 8);
    assert Pow(256, 12) == 65536 * Pow(256, 10);
    assert Pow(256, 14) == 65536 * Pow(256, 12);
    assert Pow(256, 16) == 65536 * Pow(256, 14);
  }

  lemma Pow256Grows(j: nat, k: nat)
    requires j <= k
    ensures 0 < Pow(256, j) <= Pow(256, k)
  {
    if j < k { Pow256Grows(j, k - 1); }
    else if k > 0 { Pow256Grows(k - 1, k - 1); }
  }

  /** The k low bytes of n, least significant first. */
  function LE(n: nat, k: nat): (b: Bytes)
    ensures |b| == k
  {
    if k == 0 then [] else [n % 256] + LE(n / 256, k - 1)
  }

  /** Byte i of a little-endian integer is its i-th base-256 digit. */
  lemma {:induction false} LEByte(n: nat, k: nat, i: nat)
    requires i < k
    ensures LE(n, k)[i] == DigitAt(n, 256, i)
  {
    hide DigitAt;
    if i == 0 {
      LowestDigit(n);
    } else {
      LEByte(n / 256, k - 1, i - 1);
      DigitAbove(n, 256, i - 1);
    }
  }

  lemma LowestDigit(n: nat)
    ensures DigitAt(n, 256, 0) == n % 256
  {
  }

  function FromLE(b: Bytes): nat {
    if b == [] then 0 else b[0] + 256 * FromLE(b[1..])
  }

  lemma FromLEBound(b: Bytes)
    ensures FromLE(b) < Pow(256, |b|)
  {
    if b == [] {
    } else {
      FromLEBound(b[1..]);
    }
  }

  lemma LERoundTrip(n: nat, k: nat)
    requires n < Pow(256, k)
    ensures FromLE(LE(n, k)) == n
  {
    if k == 0 {
    } else {
      LERoundTrip(n / 256, k - 1);
      assert LE(n, k)[1..] == LE(n / 256, k - 1);
    }
  }

  lemma {:induction false} FromLERoundTrip(b: Bytes)
    ensures LE(FromLE(b), |b|) == b
  {
    if b == [] {
    } else {
      var high := FromLE(b[1..]);
      assert (b[0] + 256 * high) % 256 == b[0] && (b[0] + 256 * high) / 256 == high;
      FromLERoundTrip(b[1..]);
      assert LE(FromLE(b), |b|) == [b[0]] + LE(high, |b| - 1);
    }
  }

  function DecodeLE(b: Bytes, k: nat): Parsed<nat> {
    match Take(b, k)
    case Bad => Bad
    case Parsed(bytes, rest) => Parsed(FromLE(bytes), rest)
  }

  lemma IntRoundTrip(n: nat, k: nat, rest: Bytes)
    requires n < Pow(256, k)
    ensures DecodeLE(LE(n, k) + rest, k) == Parsed(n, rest)
  {
    LERoundTrip(n, k);
    assert (LE(n, k) + rest)[..k] == LE(n, k) && (LE(n, k) + rest)[k..] == rest;
  }

  lemma IntCanonical(b: Bytes, k: nat)
    requires DecodeLE(b, k).Parsed?
    ensures var p := DecodeLE(b, k); p.value < Pow(256, k) && b == LE(p.value, k) + p.rest
  {
    FromLEBound(b[..k]);
    FromLERoundTrip(b[..k]);
  }

  // ---------------------------------------------------------------- compact integers

  /** The number of bytes n needs. */
  function ByteLen(n: nat): nat {
    if n == 0 then 0 else 1 + ByteLen(n / 256)
  }

  lemma ByteLenBounds(n: nat)
    ensures n < Pow(256, ByteLen(n))
    ensures n > 0 ==> Pow(256, ByteLen(n) - 1) <= n
  {
    if n == 0 {
    } else {
      ByteLenBounds(n / 256);
    }
  }

  /** The byte length is the k whose power range holds n. */
  lemma ByteLenIs(n: nat, k: nat)
    requires k > 0 && Pow(256, k - 1) <= n < Pow(256, k)
    ensures ByteLen(n) == k
  {
    ByteLenBounds(n);
    Pow256Grows(0, k - 1);
    if ByteLen(n) < k { Pow256Grows(ByteLen(n), k - 1); }
    if ByteLen(n) > k { Pow256Grows(k, ByteLen(n) - 1); }
  }

  /** One, two or four bytes with the mode in the low two bits, or a length byte and the bytes. */
  function EncodeCompact(n: nat): Bytes
    requires n < U128_RANGE
  {
    if n < 0x40 then [4 * n]
    else if n < 0x4000 then LE(4 * n + 1, 2)
    else if n < 0x4000_0000 then LE(4 * n + 2, 4)
    else
      BigCompactWidth(n, 16);
      LongForm(n, ByteLen(n))
  }

  /** The four modes of a compact integer, byte by byte. */
  lemma {:induction false} CompactLayout(n: nat)
    requires n < U128_RANGE
    ensures n < 0x40 ==> EncodeCompact(n) == [4 * n]
    ensures 0x40 <= n < 0x4000 ==>
      var b := EncodeCompact(n); |b| == 2 && b[0] % 4 == 1 && b[0] / 4 + b[1] as nat * 64 == n
    ensures 0x4000 <= n < 0x4000_0000 ==>
      var b := EncodeCompact(n);
      |b| == 4 && b[0] % 4 == 2 && b[0] / 4 + b[1] as nat * 0x40 + b[2] as nat * 0x4000 + b[3] as nat * 0x40_0000 == n
    ensures 0x4000_0000 <= n ==>
      var b := EncodeCompact(n);
      && 5 <= |b| <= 17 && b[0] == 4 * (|b| - 5) + 3 && Pow(256, |b| - 2) <= n < Pow(256, |b| - 1)
      && forall i :: 0 <= i < |b| - 1 ==> b[i + 1] == DigitAt(n, 256, i)
  {
    if n < 0x40 {
    } else if n < 0x4000_0000 {
      ShortLayout(if n < 0x4000 then 4 * n + 1 else 4 * n + 2);
    } else {
      BigCompactWidth(n, 16);
      ByteLenBounds(n);
      var k := ByteLen(n);
      forall i | 0 <= i < k
        ensures EncodeCompact(n)[i + 1] == DigitAt(n, 256, i)
      {
        LEByte(n, k, i);
        assert LongForm(n, k)[i + 1] == LE(n, k)[i];
      }
    }
  }

  lemma ShortLayout(v: nat)
    ensures v < 0x1_0000 ==> var b := LE(v, 2); b[0] + b[1] as nat * 0x100 == v
    ensures v < 0x1_0000_0000 ==>
      var b := LE(v, 4); b[0] + b[1] as nat * 0x100 + b[2] as nat * 0x1_0000 + b[3] as nat * 0x100_0000 == v
    ensures LE(v, 2)[0] == LE(v, 4)[0] == v % 256
  {
    var v1 := v / 256;
    var v2 := v1 / 256;
    assert LE(v, 2) == [v % 256] + LE(v1, 1) && LE(v1, 1) == [v1 % 256] + LE(v2, 0);
    assert LE(v, 4) == [v % 256] + LE(v1, 3) && LE(v1, 3) == [v1 % 256] + LE(v2, 2);
    assert LE(v2, 2) == [v2 % 256] + LE(v2 / 256, 1) && LE(v2 / 256, 1) == [v2 / 256 % 256] + LE(v2 / 256 / 256, 0);
  }

  lemma BigCompactWidth(n: nat, width: nat)
    requires 0x4000_0000 <= n < Pow(256, width) || (width == 16 && 0x4000_0000 <= n < U128_RANGE)
    ensures 4 <= ByteLen(n) <= width
  {
    Pow256Values();
    ByteLenBounds(n);
    if ByteLen(n) < 4 { Pow256Grows(ByteLen(n), 3); }
    if ByteLen(n) > width { Pow256Grows(width, ByteLen(n) - 1); }
  }

  /** Only the shortest form is accepted, and no more than `width` bytes in the last mode. */
  function DecodeCompact(b: Bytes, width: nat): Parsed<nat> {
    if b == [] then Bad
    else
      var mode := b[0] % 4;
      if mode == 0 then Parsed(b[0] / 4, b[1..])
      else if mode == 1 then AtLeast(Quarter(DecodeLE(b, 2)), 0x40)
      else if mode == 2 then AtLeast(Quarter(DecodeLE(b, 4)), 0x4000)
      else
        var k := b[0] / 4 + 4;
        if k > width then Bad else AtLeast(DecodeLE(b[1..], k), if k == 4 then 0x4000_0000 else Pow(256, k - 1))
  }

  function Quarter(p: Parsed<nat>): Parsed<nat> {
    if p.Bad? then Bad else Parsed(p.value / 4, p.rest)
  }

  function AtLeast(p: Parsed<nat>, least: nat): Parsed<nat> {
    if p.Parsed? && p.value < least then Bad else p
  }

  lemma FirstByte(v: nat, k: nat, rest: Bytes)
    requires k > 0
    ensures var b := LE(v, k) + rest; b != [] && b[0] % 4 == v % 4
  {
    assert (LE(v, k) + rest)[0] == v % 256;
  }

  lemma CompactRoundTripShort(n: nat, width: nat, rest: Bytes)
    requires n < 0x4000_0000
    ensures DecodeCompact(EncodeCompact(n) + rest, width) == Parsed(n, rest)
  {
    Pow256Values();
    if n < 0x40 {
      assert ([4 * n] + rest)[1..] == rest;
    } else {
      var v, k := if n < 0x4000 then 4 * n + 1 else 4 * n + 2, if n < 0x4000 then 2 else 4;
      IntRoundTrip(v, k, rest);
      FirstByte(v, k, rest);
      hide LE, DecodeLE, Pow, ByteLen;
    }
  }

  lemma CompactRoundTripLong(n: nat, width: nat, rest: Bytes)
    requires width <= 16 && 0x4000_0000 <= n < Pow(256, width) && n < U128_RANGE
    ensures DecodeCompact(EncodeCompact(n) + rest, width) == Parsed(n, rest)
  {
    BigCompactWidth(n, width);
    ByteLenBounds(n);
    LongRoundTrip(n, ByteLen(n), width, rest);
  }

  function LongForm(n: nat, k: nat): Bytes
    requires 4 <= k <= 16
  {
    [4 * (k - 4) + 3] + LE(n, k)
  }

  lemma LongRoundTrip(n: nat, k: nat, width: nat, rest: Bytes)
    requires 4 <= k <= width <= 16 && n < Pow(256, k)
    requires n >= if k == 4 then 0x4000_0000 else Pow(256, k - 1)
    ensures DecodeCompact(LongForm(n, k) + rest, width) == Parsed(n, rest)
  {
    IntRoundTrip(n, k, rest);
    var b := LongForm(n, k) + rest;
    assert b[1..] == LE(n, k) + rest;
    DecodeLong(b, width, k, n, rest);
  }

  lemma DecodeLong(b: Bytes, width: nat, k: nat, n: nat, rest: Bytes)
    requires b != [] && 4 <= k <= width && b[0] == 4 * (k - 4) + 3
    requires DecodeLE(b[1..], k) == Parsed(n, rest)
    requires n >= if k == 4 then 0x4000_0000 else Pow(256, k - 1)
    ensures DecodeCompact(b, width) == Parsed(n, rest)
  {
  }

  lemma {:induction false} CompactRoundTrip(n: nat, width: nat, rest: Bytes)
    requires 4 <= width <= 16 && n < Pow(256, width) && n < U128_RANGE
    ensures DecodeCompact(EncodeCompact(n) + rest, width) == Parsed(n, rest)
  {
    if n < 0x4000_0000 { CompactRoundTripShort(n, width, rest); } else { CompactRoundTripLong(n, width, rest); }
  }

  lemma CompactCanonicalShort(b: Bytes, width: nat)
    requires DecodeCompact(b, width).Parsed? && b[0] % 4 != 3
    ensures var p := DecodeCompact(b, width); p.value < 0x4000_0000 && b == EncodeCompact(p.value) + p.rest
  {
    Pow256Values();
    if b[0] % 4 == 0 {
      assert b == [b[0]] + b[1..];
    } else {
      var k := if b[0] % 4 == 1 then 2 else 4;
      IntCanonical(b, k);
      LowBits(b, k);
    }
  }

  lemma CompactCanonicalLong(b: Bytes, width: nat)
    requires 4 <= width <= 16 && DecodeCompact(b, width).Parsed? && b[0] % 4 == 3
    ensures var p := DecodeCompact(b, width);
      p.value < Pow(256, width) <= U128_RANGE && b == EncodeCompact(p.value) + p.rest
  {
    hide LE, DecodeLE, Pow, ByteLen;
    var n, k := DecodeCompact(b, width).value, b[0] / 4 + 4;
    IntCanonical(b[1..], k);
    LongWidths(n, k, width);
    assert b == [b[0]] + b[1..];
  }

  lemma LongWidths(n: nat, k: nat, width: nat)
    requires 4 <= k <= width <= 16 && n < Pow(256, k) && n >= if k == 4 then 0x4000_0000 else Pow(256, k - 1)
    ensures 0x4000_0000 <= n < Pow(256, width) <= U128_RANGE && ByteLen(n) == k
  {
    Pow256Values();
    Pow256Grows(k, width);
    Pow256Grows(width, 16);
    LongCompactAtLeast(n, k);
    ByteLenIs(n, k);
  }

  lemma LongCompactAtLeast(n: nat, k: nat)
    requires k >= 4 && n >= if k == 4 then 0x4000_0000 else Pow(256, k - 1)
    ensures n >= 0x4000_0000 && n >= Pow(256, k - 1)
  {
    Pow256Values();
    if k > 4 { Pow256Grows(4, k - 1); }
  }

  lemma {:induction false} CompactCanonical(b: Bytes, width: nat)
    requires 4 <= width <= 16 && DecodeCompact(b, width).Parsed?
    ensures var p := DecodeCompact(b, width);
      p.value < Pow(256, width) && p.value < U128_RANGE && b == EncodeCompact(p.value) + p.rest
  {
    Pow256Values();
    Pow256Grows(4, width);
    if b[0] % 4 == 3 { CompactCanonicalLong(b, width); } else { CompactCanonicalShort(b, width); }
  }

  /** The mode bits of the first byte are the low bits of the whole. */
  lemma LowBits(b: Bytes, k: nat)
    requires 0 < k <= |b|
    ensures FromLE(b[..k]) % 4 == b[0] % 4
    ensures FromLE(b[..k]) / 4 * 4 + b[0] % 4 == FromLE(b[..k])
  {
    var high := FromLE(b[..k][1..]);
    assert FromLE(b[..k]) == b[0] + 4 * (64 * high);
  }

  // ---------------------------------------------------------------- byte vectors

  function EncodeBlob(v: Blob): Bytes { EncodeCompact(|v|) + v }

  function DecodeBlob(b: Bytes): Parsed<Blob> {
    var n := DecodeCompact(b, 4);
    if n.Bad? then Bad
    else
      CompactCanonical(b, 4);
      Pow256Values();
      Take(n.rest, n.value)
  }

  lemma BlobRoundTrip(v: Blob, rest: Bytes)
    ensures DecodeBlob(EncodeBlob(v) + rest) == Parsed(v, rest)
  {
    Pow256Values();
    CompactRoundTrip(|v|, 4, v + rest);
    assert EncodeBlob(v) + rest == EncodeCompact(|v|) + (v + rest);
    assert (v + rest)[..|v|] == v && (v + rest)[|v|..] == rest;
  }

  lemma BlobCanonical(b: Bytes)
    requires DecodeBlob(b).Parsed?
    ensures var p := DecodeBlob(b); b == EncodeBlob(p.value) + p.rest
  {
    CompactCanonical(b, 4);
    var n, p := DecodeCompact(b, 4), DecodeBlob(b);
    assert n.rest == p.value + p.rest;
  }
}
