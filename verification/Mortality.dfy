/**
 Transaction mortality: the era a period and a height fix, the block it is born at, and its wire
 form. `Era::mortal`, `Era::birth` and the encoding are those of the Transaction Mortality
 definition of the Polkadot Protocol Specification.
 */
module Mortality {
  import opened Prelude
  import opened Scale

  datatype Era = Immortal | Mortal(period: U64, phase: U64)

  // ---------------------------------------------------------------- powers of two

  function NextPow2(n: nat): nat { if n <= 1 then 1 else 2 * NextPow2((n + 1) / 2) }

  /** `next_power_of_two`: a power of two that holds n, and no smaller one does. */
  lemma NextPow2IsLeast(n: nat) returns (e: nat)
    ensures NextPow2(n) == Pow(2, e) && n <= Pow(2, e)
    ensures forall f :: 0 <= f && n <= Pow(2, f) ==> Pow(2, e) <= Pow(2, f)
  {
    if n <= 1 {
      e := 0;
      forall f: nat ensures 1 <= Pow(2, f) { Pow2Grows(0, f); }
    } else {
      var d := NextPow2IsLeast((n + 1) / 2);
      e := d + 1;
      forall f: nat | n <= Pow(2, f)
        ensures Pow(2, e) <= Pow(2, f)
      {
        assert (n + 1) / 2 <= Pow(2, f - 1);
      }
    }
  }

  lemma Pow2Grows(d: nat, e: nat)
    requires d <= e
    ensures 0 < Pow(2, d) <= Pow(2, e)
    ensures d < e ==> 2 * Pow(2, d) <= Pow(2, e)
  {
    if d < e { Pow2Grows(d, e - 1); } else if e > 0 { Pow2Grows(e - 1, e - 1); }
  }

  lemma Pow2Values()
    ensures Pow(2, 2) == 4 && Pow(2, 3) == 8 && Pow(2, 4) == 16 && Pow(2, 5) == 32
    ensures Pow(2, 6) == 64 && Pow(2, 7) == 128
    ensures Pow(2, 8) == 256 && Pow(2, 9) == 512 && Pow(2, 10) == 1024 && Pow(2, 11) == 2048 && Pow(2, 12) == 4096
    ensures Pow(2, 13) == 8192 && Pow(2, 14) == 16384 && Pow(2, 15) == 32768 && Pow(2, 16) == 65536
  {
    assert Pow(2, 4) == 16 * Pow(2, 0);
    assert Pow(2, 7) == 8 * Pow(2, 4);
    assert Pow(2, 10) == 8 * Pow(2, 7);
    assert Pow(2, 13) == 8 * Pow(2, 10);
    assert Pow(2, 16) == 8 * Pow(2, 13);
  }

  // ---------------------------------------------------------------- the era

  /** Rounded up to a power of two, and clamped to 4..65536; 65536 too when there is no such u64. */
  function RoundedPeriod(period: U64): (r: U64)
    ensures 4 <= r <= 65536
  {
    var up := NextPow2(period);
    if up >= U64_RANGE then 65536 else Min(Max(up, 4), 65536)
  }

  function Quantize(period: nat): (q: nat)
    ensures q > 0
  {
    Max(period / 4096, 1)
  }

  function MortalEra(period: U64, current: U64): Era {
    var rounded := RoundedPeriod(period);
    Mortal(rounded, FloorTo(current % rounded, Quantize(rounded)))
  }

  /** The largest multiple of q up to n. */
  function FloorTo(n: nat, q: nat): (r: nat)
    requires q > 0
    ensures r <= n < r + q
  {
    n / q * q
  }

  lemma FloorToMultiple(n: nat, q: nat)
    requires q > 0
    ensures FloorTo(n, q) % q == 0 && FloorTo(FloorTo(n, q), q) == FloorTo(n, q)
  {
    DivModUnique(n / q, q, 0);
  }

  /** The anchor block `from_period` computes from the height of the finalised head. */
  function BirthBlock(era: Era, current: U64): nat
    requires era.Mortal? ==> era.period > 0
  {
    match era
    case Immortal => current
    case Mortal(period, phase) => SaturatingSub(current, SaturatingSub(current, phase) % period)
  }

  /** `Era::birth` of the specification. */
  function SpecBirth(era: Era, current: nat): int
    requires era.Mortal? ==> era.period > 0
  {
    match era
    case Immortal => 0
    case Mortal(period, phase) => (Max(current, phase) - phase) / period * period + phase
  }

  lemma ModOfBase(base: nat, p: nat, r: nat)
    requires r < p && base % p == 0
    ensures (base + r) % p == r && (base + r) / p * p == base
  {
    DivModUnique(base / p, p, r);
  }

  /** The era built `offset` blocks into a period that starts at `base`, and its birth block. */
  lemma BirthIs(period: U64, base: nat, offset: nat, h: U64)
    requires offset < RoundedPeriod(period) && base % RoundedPeriod(period) == 0 && h == base + offset
    ensures MortalEra(period, h) == EraAt(period, offset)
    ensures BirthBlock(EraAt(period, offset), h) == base + EraAt(period, offset).phase
  {
    ModOfBase(base, RoundedPeriod(period), offset);
    HeightInWindow(base, RoundedPeriod(period), EraAt(period, offset).phase, h);
  }

  function EraAt(period: U64, offset: nat): (era: Era)
    requires offset < RoundedPeriod(period)
    ensures era.Mortal? && era.phase <= offset
  {
    Mortal(RoundedPeriod(period), FloorTo(offset, Quantize(RoundedPeriod(period))))
  }

  /**
   The birth block is at or below the head and within the rounded period of it; rebuilding the era
   at the birth block gives the same era; and every height of the validity window is mapped back to
   that same birth block, also by the specification's own formula.
   */
  lemma {:induction false} MortalityWindow(period: U64, current: U64)
    ensures var p, era := RoundedPeriod(period), MortalEra(period, current);
      var birth := BirthBlock(era, current);
      && birth <= current < birth + p
      && MortalEra(period, birth) == era
      && (forall h: U64 :: birth <= h < birth + p ==> BirthBlock(era, h) == birth == SpecBirth(era, h))
    ensures BirthBlock(Immortal, current) == current
  {
    var base, offset := PeriodStart(period, current);
    BirthIs(period, base, offset, current);
    var era := EraAt(period, offset);
    RebuiltEra(period, offset);
    BirthIs(period, base, era.phase, base + era.phase);
    EveryHeightInWindow(base, era);
  }

  /** The start of the period a height falls in, and how far into it the height is. */
  lemma PeriodStart(period: U64, current: U64) returns (base: nat, offset: nat)
    ensures base % RoundedPeriod(period) == 0 && offset < RoundedPeriod(period) && current == base + offset
  {
    hide RoundedPeriod;
    var p := RoundedPeriod(period);
    SplitBy(current, p);
    base, offset := current / p * p, current % p;
  }

  lemma SplitBy(n: nat, p: nat)
    requires p > 0
    ensures n == n / p * p + n % p && n / p * p >= 0 && n / p * p % p == 0
  {
    assert n == n / p * p + n % p;
    DivModUnique(n / p, p, 0);
  }

  lemma RebuiltEra(period: U64, offset: nat)
    requires offset < RoundedPeriod(period)
    ensures EraAt(period, EraAt(period, offset).phase) == EraAt(period, offset)
  {
    FloorToMultiple(offset, Quantize(RoundedPeriod(period)));
  }

  lemma EveryHeightInWindow(base: nat, era: Era)
    requires era.Mortal? && era.phase < era.period && base % era.period == 0
    ensures forall h: U64 :: base + era.phase <= h < base + era.phase + era.period ==>
      BirthBlock(era, h) == base + era.phase == SpecBirth(era, h)
  {
    forall h: U64 | base + era.phase <= h < base + era.phase + era.period
      ensures BirthBlock(era, h) == base + era.phase == SpecBirth(era, h)
    {
      HeightInWindow(base, era.period, era.phase, h);
    }
  }

  lemma HeightInWindow(base: nat, p: U64, phase: U64, h: U64)
    requires phase < p && base % p == 0 && base + phase <= h < base + phase + p
    ensures BirthBlock(Mortal(p, phase), h) == base + phase == SpecBirth(Mortal(p, phase), h)
  {
    ModOfBase(base, p, h - phase - base);
  }

  // ---------------------------------------------------------------- the era on the wire

  /** The eras that exist: a power of two from 4 to 65536, and a quantised phase below it. */
  ghost predicate ValidEra(era: Era) {
    era.Mortal? ==>
      && (exists e :: 2 <= e <= 16 && era.period == Pow(2, e))
      && era.phase < era.period && era.phase % Quantize(era.period) == 0
  }

  lemma MortalEraIsValid(period: U64, current: U64)
    ensures ValidEra(MortalEra(period, current))
  {
    var p, q := RoundedPeriod(period), Quantize(RoundedPeriod(period));
    var e := NextPow2IsLeast(period);
    Pow2Values();
    var f := if p == 4 then 2 else if p == 65536 then 16 else e;
    if p != 4 && p != 65536 {
      if e < 2 { Pow2Grows(e, 2); }
      if e > 16 { Pow2Grows(16, e); }
    }
    assert p == Pow(2, f) && 2 <= f <= 16;
    FloorToMultiple(current % p, q);
  }

  /**
   What `Era::mortal` builds: the least period from 4 to 65536 that is a power of two and covers what was
   asked for (65536 when none does), and the last quantised phase at or before the height's own.
   */
  lemma MortalEraIs(period: U64, current: U64)
    ensures var era := MortalEra(period, current);
      && (period <= 65536 ==> period <= era.period)
      && (forall e: nat :: 2 <= e <= 16 && (period <= Pow(2, e) || e == 16) ==> era.period <= Pow(2, e))
      && era.phase <= current % era.period < era.phase + Quantize(era.period)
  {
    var e := NextPow2IsLeast(period);
    Pow2Values();
    forall f: nat | 2 <= f <= 16 && (period <= Pow(2, f) || f == 16)
      ensures RoundedPeriod(period) <= Pow(2, f)
    {
      Pow2Grows(2, f);
    }
  }

  function TrailingZeros(n: nat): nat
    requires n > 0
  {
    if n % 2 == 1 then 0 else 1 + TrailingZeros(n / 2)
  }

  lemma TrailingZerosOfPow2(e: nat)
    ensures Pow(2, e) > 0 && TrailingZeros(Pow(2, e)) == e
  {
  }

  function EncodeEra(era: Era): Bytes
    requires era.Mortal? ==> era.period > 0
  {
    match era
    case Immortal => [0]
    case Mortal(period, phase) =>
      LE(EraBits(TrailingZeros(period), phase / Quantize(period)), 2)
  }

  /** The exponent less one, kept within 1..15, and the quantised phase above it, cut to 16 bits. */
  function EraBits(zeros: nat, quantized: nat): nat {
    Min(Max(zeros - 1, 1), 15) + quantized * 16 % U16_RANGE
  }

  function DecodeEra(b: Bytes): Parsed<Era> {
    if b == [] then Bad
    else if b[0] == 0 then Parsed(Immortal, b[1..])
    else if |b| < 2 then Bad
    else
      var era := EraOfCode(FromLE(b[..2]));
      if era.None? then Bad else Parsed(era.value, b[2..])
  }

  /** The period from the low four bits, the quantised phase from the rest. */
  function EraOfCode(encoded: nat): Option<Era> {
    var period := EraPeriod(encoded % 16);
    var phase := encoded / 16 * Quantize(period);
    if period >= 4 && phase < period then Some(Mortal(period, phase)) else None
  }

  /** Two shifted left by the low four bits. */
  function EraPeriod(bits: nat): (r: U64)
    requires bits < 16
  {
    Pow2Values();
    Pow2Grows(bits + 1, 16);
    Pow(2, bits + 1)
  }

  lemma QuantizeValues(e: nat)
    requires 2 <= e <= 16
    ensures Quantize(Pow(2, e)) ==
      if e <= 12 then 1 else if e == 13 then 2 else if e == 14 then 4 else if e == 15 then 8 else 16
    ensures 4096 * Quantize(Pow(2, e)) >= Pow(2, e)
  {
    Pow2Values();
  }

  /** The 16-bit code of a mortal era: the exponent less one below, the quantised phase above. */
  lemma EraCode(e: nat, n: nat, phase: U64)
    requires 2 <= e <= 16 && phase == n * Quantize(Pow(2, e)) && n < 4096 && phase < Pow(2, e) <= 65536
    ensures EncodeEra(Mortal(Pow(2, e), phase)) == LE(e - 1 + n * 16, 2)
  {
    TrailingZerosOfPow2(e);
    DivModUnique(n, Quantize(Pow(2, e)), 0);
    BitsOf(e, n);
  }

  lemma BitsOf(e: nat, n: nat)
    requires 2 <= e <= 16 && n < 4096
    ensures EraBits(e, n) == e - 1 + n * 16
  {
  }

  /** A quantised phase is a multiple of the factor, below 4096 times it. */
  lemma PhaseMultiple(e: nat, phase: nat) returns (n: nat)
    requires 2 <= e <= 16 && phase < Pow(2, e) && phase % Quantize(Pow(2, e)) == 0
    ensures phase == n * Quantize(Pow(2, e)) && n < 4096
  {
    QuantizeValues(e);
    var q := Quantize(Pow(2, e));
    n := phase / q;
    assert phase == n * q;
    assert n * q == phase < 4096 * q;
  }

  lemma EraRoundTrip(era: Era, rest: Bytes)
    requires ValidEra(era)
    ensures DecodeEra(EncodeEra(era) + rest) == Parsed(era, rest)
  {
    if era.Immortal? {
      assert ([0] + rest)[1..] == rest;
    } else {
      var e :| 2 <= e <= 16 && era.period == Pow(2, e);
      Pow2Grows(e, 16);
      Pow2Values();
      var n := PhaseMultiple(e, era.phase);
      EraCode(e, n, era.phase);
      DecodeCode(e, n, Quantize(Pow(2, e)), rest);
    }
  }

  lemma DecodeCode(e: nat, n: nat, q: nat, rest: Bytes)
    requires 2 <= e <= 16 && n < 4096 && q == Quantize(Pow(2, e)) && n * q < Pow(2, e) <= 65536
    ensures DecodeEra(LE(e - 1 + n * 16, 2) + rest) == Parsed(Mortal(Pow(2, e), n * q), rest)
  {
    var code := e - 1 + n * 16;
    CodeBytes(code, e, rest);
    Pow2Grows(2, e);
    assert Pow(2, 2) == 4 && code % 16 == e - 1 && code / 16 == n;
  }

  lemma CodeBytes(code: nat, e: nat, rest: Bytes)
    requires code < U16_RANGE && 2 <= e && code % 16 == e - 1
    ensures var b := LE(code, 2) + rest; b[..2] == LE(code, 2) && b[2..] == rest && b[0] != 0 && FromLE(b[..2]) == code
  {
    Pow256Values();
    LERoundTrip(code, 2);
    var b := LE(code, 2) + rest;
    assert b[..2] == LE(code, 2) && b[2..] == rest;
    assert b[0] == code % 256;
  }

  lemma EraCanonical(b: Bytes)
    requires DecodeEra(b).Parsed?
    ensures var p := DecodeEra(b); ValidEra(p.value) && b == EncodeEra(p.value) + p.rest
  {
    var p := DecodeEra(b);
    if p.value.Immortal? {
      assert b == [b[0]] + b[1..];
    } else {
      FromLEBound(b[..2]);
      FromLERoundTrip(b[..2]);
      Pow256Values();
      var encoded := FromLE(b[..2]);
      var e, n := encoded % 16 + 1, encoded / 16;
      Pow2Values();
      Pow2Grows(e, 16);
      assert p == Parsed(Mortal(Pow(2, e), n * Quantize(Pow(2, e))), b[2..]);
      CodeOfDecoded(e, n);
      assert e - 1 + n * 16 == encoded;
      assert b == b[..2] + b[2..];
    }
  }

  /** A code that decodes to an era is the code that era encodes to. */
  lemma CodeOfDecoded(e: nat, n: nat)
    requires 1 <= e <= 16 && n < 4096 && 4 <= Pow(2, e) <= 65536 && n * Quantize(Pow(2, e)) < Pow(2, e)
    ensures ValidEra(Mortal(Pow(2, e), n * Quantize(Pow(2, e))))
    ensures EncodeEra(Mortal(Pow(2, e), n * Quantize(Pow(2, e)))) == LE(e - 1 + n * 16, 2)
  {
    assert Pow(2, 1) == 2;
    DivModUnique(n, Quantize(Pow(2, e)), 0);
    EraCode(e, n, n * Quantize(Pow(2, e)));
  }
}
