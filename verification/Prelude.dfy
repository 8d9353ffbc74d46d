/** Types shared by every module: fixed-width integers, bytes, options and results. */
module Prelude {
  const U16_RANGE: nat := 0x1_0000
  const U32_RANGE: nat := 0x1_0000_0000
  const U64_RANGE: nat := 0x1_0000_0000_0000_0000
  const U128_RANGE: nat := 0x1_0000_0000_0000_0000_0000_0000_0000_0000
  const U32_MAX: nat := 0xFFFF_FFFF

  type Byte = n: nat | n < 0x100
  type U16 = n: nat | n < 0x1_0000
  type U32 = n: nat | n < 0x1_0000_0000
  type U64 = n: nat | n < 0x1_0000_0000_0000_0000
  type U128 = n: nat | n < 0x1_0000_0000_0000_0000_0000_0000_0000_0000
  type Bytes = seq<Byte>

  datatype Option<+T> = None | Some(value: T) {
    function GetOr(default: T): T { if Some? then value else default }
  }

  /** Why a call failed: the transport, an answer with nothing in it, bad input, bad bytes. */
  datatype Error = RpcFailed | ExpectedData | ValidationFailed | DecodingFailed | Unimplemented

  datatype Result<+T> = Ok(value: T) | Err(error: Error)

  function Min(a: int, b: int): int { if a < b then a else b }

  function Max(a: int, b: int): int { if a < b then b else a }

  /** `u32::saturating_add`. */
  function SaturatingAdd(a: U32, b: U32): U32 { Min(a + b, U32_MAX) }

  /** `saturating_sub`, on any unsigned width. */
  function SaturatingSub(a: nat, b: nat): nat { if a < b then 0 else a - b }

  // ---------------------------------------------------------------- arithmetic

  function Pow(base: nat, e: nat): nat { if e == 0 then 1 else base * Pow(base, e - 1) }

  lemma PowPositive(base: nat, e: nat)
    requires base > 0
    ensures Pow(base, e) > 0
  {
  }

  /** Digit i of a number in a base, digit 0 being the lowest. */
  function DigitAt(n: nat, base: nat, i: nat): nat
    requires base > 0
  {
    PowPositive(base, i);
    n / Pow(base, i) % base
  }

  /** The digits above the lowest are those of the quotient. */
  lemma DigitAbove(n: nat, base: nat, i: nat)
    requires base > 0
    ensures n / base >= 0 && DigitAt(n, base, i + 1) == DigitAt(n / base, base, i)
  {
    PowPositive(base, i);
    DivDiv(n, base, Pow(base, i));
  }

  lemma DivDiv(n: nat, a: nat, b: nat)
    requires a > 0 && b > 0
    ensures a * b > 0 && n / a >= 0 && n / a / b == n / (a * b)
  {
    var q, r, s := n / a / b, n / a % b, n % a;
    assert n / a == q * b + r && n == n / a * a + s;
    assert n == q * (a * b) + (r * a + s);
    MulMonotone(r, b - 1, a);
    assert (b - 1) * a == a * b - a;
    DivModUnique(q, a * b, r * a + s);
  }

  lemma MulMonotone(a: nat, b: nat, c: nat)
    requires a <= b
    ensures a * c <= b * c
  {
  }

  lemma DivModUnique(q: nat, p: nat, r: nat)
    requires r < p
    ensures (q * p + r) / p == q && (q * p + r) % p == r
  {
    var n := q * p + r;
    var d := n / p - q;
    assert n == n / p * p + n % p;
    assert d * p == r - n % p;
  }

  // ---------------------------------------------------------------- sequences

  function Zeros(k: nat): (z: Bytes)
    ensures |z| == k && forall i :: 0 <= i < k ==> z[i] == 0
  {
    seq(k, i => 0)
  }

  function Reversed<T>(s: seq<T>): (r: seq<T>)
    ensures |r| == |s|
    ensures forall i :: 0 <= i < |s| ==> r[i] == s[|s| - 1 - i]
  {
    if s == [] then [] else Reversed(s[1..]) + [s[0]]
  }

  lemma ReversedTwice<T>(s: seq<T>)
    ensures Reversed(Reversed(s)) == s
  {
  }
}
