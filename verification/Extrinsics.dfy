/** Extrinsics on the wire: the signed part, the length-prefixed envelope, and its two decoders. */
module Extrinsics {
  import opened Prelude
  import opened Scale
  import opened Mortality

  const EXTRINSIC_FORMAT_VERSION: Byte := 4
  const SIGNED_FLAG: Byte := 0x80

  type Bytes20 = b: Bytes | |b| == 20 witness seq(20, i => 0)
  type Bytes32 = b: Bytes | |b| == 32 witness seq(32, i => 0)
  type Bytes64 = b: Bytes | |b| == 64 witness seq(64, i => 0)
  type Bytes65 = b: Bytes | |b| == 65 witness seq(65, i => 0)
  type WireEra = e: Era | ValidEra(e) witness Immortal

  datatype MultiAddress =
    | Id(account: Bytes32)
    | Index(index: U32)
    | Raw(raw: Blob)
    | Address32(a32: Bytes32)
    | Address20(a20: Bytes20)

  datatype MultiSignature = Ed25519(ed: Bytes64) | Sr25519(sr: Bytes64) | Ecdsa(ec: Bytes65)

  datatype ExtrinsicExtra = ExtrinsicExtra(era: WireEra, nonce: U32, tip: U128, appId: U32)

  datatype ExtrinsicSignature = ExtrinsicSignature(address: MultiAddress, signature: MultiSignature,
                                                   extra: ExtrinsicExtra)

  /** The opaque form: whatever was signed, and the bytes of the call. */
  datatype EncodedExtrinsic = EncodedExtrinsic(signature: Option<ExtrinsicSignature>, call: Bytes)

  datatype ExtrinsicCall = ExtrinsicCall(palletId: Byte, variantId: Byte, data: Bytes)

  datatype GenericExtrinsic = GenericExtrinsic(signature: Option<ExtrinsicSignature>, call: ExtrinsicCall)

  // ---------------------------------------------------------------- addresses and signatures

  function EncodeAddress(a: MultiAddress): Bytes {
    match a
    case Id(b) => [0] + b
    case Index(n) => [1] + EncodeCompact(n)
    case Raw(v) => [2] + EncodeBlob(v)
    case Address32(b) => [3] + b
    case Address20(b) => [4] + b
  }

  function DecodeAddress(b: Bytes): Parsed<MultiAddress> {
    if b == [] then Bad
    else if b[0] == 0 then
      (match Take(b[1..], 32) case Bad => Bad case Parsed(x, rest) => Parsed(Id(x), rest))
    else if b[0] == 1 then
      (match DecodeCompactU32(b[1..]) case Bad => Bad case Parsed(x, rest) => Parsed(Index(x), rest))
    else if b[0] == 2 then
      (match DecodeBlob(b[1..]) case Bad => Bad case Parsed(x, rest) => Parsed(Raw(x), rest))
    else if b[0] == 3 then
      (match Take(b[1..], 32) case Bad => Bad case Parsed(x, rest) => Parsed(Address32(x), rest))
    else if b[0] == 4 then
      (match Take(b[1..], 20) case Bad => Bad case Parsed(x, rest) => Parsed(Address20(x), rest))
    else Bad
  }

  function DecodeCompactU32(b: Bytes): Parsed<U32> {
    var p := DecodeCompact(b, 4);
    if p.Bad? then Bad
    else
      CompactCanonical(b, 4);
      Pow256Values();
      Parsed(p.value, p.rest)
  }

  function DecodeCompactU128(b: Bytes): Parsed<U128> {
    var p := DecodeCompact(b, 16);
    if p.Bad? then Bad
    else
      CompactCanonical(b, 16);
      Parsed(p.value, p.rest)
  }

  lemma CompactU32RoundTrip(n: U32, rest: Bytes)
    ensures DecodeCompactU32(EncodeCompact(n) + rest) == Parsed(n, rest)
  {
    Pow256Values();
    CompactRoundTrip(n, 4, rest);
  }

  lemma CompactU32Canonical(b: Bytes)
    requires DecodeCompactU32(b).Parsed?
    ensures var p := DecodeCompactU32(b); b == EncodeCompact(p.value) + p.rest
  {
    CompactCanonical(b, 4);
  }

  lemma CompactU128RoundTrip(n: U128, rest: Bytes)
    ensures DecodeCompactU128(EncodeCompact(n) + rest) == Parsed(n, rest)
  {
    Pow256Values();
    CompactRoundTrip(n, 16, rest);
  }

  lemma CompactU128Canonical(b: Bytes)
    requires DecodeCompactU128(b).Parsed?
    ensures var p := DecodeCompactU128(b); b == EncodeCompact(p.value) + p.rest
  {
    CompactCanonical(b, 16);
  }

  lemma AddressRoundTrip(a: MultiAddress, rest: Bytes)
    ensures DecodeAddress(EncodeAddress(a) + rest) == Parsed(a, rest)
  {
    hide DecodeCompactU32, EncodeCompact, DecodeBlob, EncodeBlob;
    match a
    case Id(x) => TagRoundTrip(0, x, rest); TakeRoundTrip(x, rest);
    case Index(n) => TagRoundTrip(1, EncodeCompact(n), rest); CompactU32RoundTrip(n, rest);
    case Raw(v) => TagRoundTrip(2, EncodeBlob(v), rest); BlobRoundTrip(v, rest);
    case Address32(x) => TagRoundTrip(3, x, rest); TakeRoundTrip(x, rest);
    case Address20(x) => TagRoundTrip(4, x, rest); TakeRoundTrip(x, rest);
  }

  lemma AddressCanonical(b: Bytes)
    requires DecodeAddress(b).Parsed?
    ensures var p := DecodeAddress(b); b == EncodeAddress(p.value) + p.rest
  {
    hide DecodeCompactU32, EncodeCompact, DecodeBlob, EncodeBlob;
    var p := DecodeAddress(b);
    assert b == [b[0]] + b[1..];
    if b[0] == 1 { CompactU32Canonical(b[1..]); }
    else if b[0] == 2 { BlobCanonical(b[1..]); }
    else if b[0] == 4 { assert b[1..] == b[1..][..20] + b[1..][20..]; }
    else { assert b[1..] == b[1..][..32] + b[1..][32..]; }
  }

  function EncodeMultiSignature(s: MultiSignature): Bytes {
    match s
    case Ed25519(b) => [0] + b
    case Sr25519(b) => [1] + b
    case Ecdsa(b) => [2] + b
  }

  function DecodeMultiSignature(b: Bytes): Parsed<MultiSignature> {
    if b == [] then Bad
    else if b[0] == 0 then
      (match Take(b[1..], 64) case Bad => Bad case Parsed(x, rest) => Parsed(Ed25519(x), rest))
    else if b[0] == 1 then
      (match Take(b[1..], 64) case Bad => Bad case Parsed(x, rest) => Parsed(Sr25519(x), rest))
    else if b[0] == 2 then
      (match Take(b[1..], 65) case Bad => Bad case Parsed(x, rest) => Parsed(Ecdsa(x), rest))
    else Bad
  }

  lemma MultiSignatureRoundTrip(s: MultiSignature, rest: Bytes)
    ensures DecodeMultiSignature(EncodeMultiSignature(s) + rest) == Parsed(s, rest)
  {
    var b := EncodeMultiSignature(s) + rest;
    var x: Bytes := match s case Ed25519(x) => x case Sr25519(x) => x case Ecdsa(x) => x;
    assert b[1..] == x + rest && (x + rest)[..|x|] == x && (x + rest)[|x|..] == rest;
  }

  lemma MultiSignatureCanonical(b: Bytes)
    requires DecodeMultiSignature(b).Parsed?
    ensures var p := DecodeMultiSignature(b); b == EncodeMultiSignature(p.value) + p.rest
  {
    var n := if b[0] == 2 then 65 else 64;
    assert b == [b[0]] + b[1..];
    assert b[1..] == b[1..][..n] + b[1..][n..];
  }

  // ---------------------------------------------------------------- the signed extra

  function EncodeWireEra(era: WireEra): Bytes {
    WireEraPeriod(era);
    EncodeEra(era)
  }

  lemma WireEraPeriod(era: WireEra)
    ensures era.Mortal? ==> era.period > 0
  {
  }

  function EncodeExtra(x: ExtrinsicExtra): Bytes {
    EncodeWireEra(x.era) + EncodeCompact(x.nonce) + EncodeCompact(x.tip) + EncodeCompact(x.appId)
  }

  function DecodeExtra(b: Bytes): Parsed<ExtrinsicExtra> {
    match DecodeEra(b)
    case Bad => Bad
    case Parsed(era, b1) =>
      match DecodeCompactU32(b1)
      case Bad => Bad
      case Parsed(nonce, b2) =>
        match DecodeCompactU128(b2)
        case Bad => Bad
        case Parsed(tip, b3) =>
          match DecodeCompactU32(b3)
          case Bad => Bad
          case Parsed(appId, rest) =>
            EraCanonical(b);
            Parsed(ExtrinsicExtra(era, nonce, tip, appId), rest)
  }

  lemma ExtraRoundTrip(x: ExtrinsicExtra, rest: Bytes)
    ensures DecodeExtra(EncodeExtra(x) + rest) == Parsed(x, rest)
  {
    hide DecodeEra, DecodeCompactU32, DecodeCompactU128, EncodeCompact, EncodeEra;
    var b3 := EncodeCompact(x.appId) + rest;
    var b2 := EncodeCompact(x.tip) + b3;
    var b1 := EncodeCompact(x.nonce) + b2;
    Reassociate(EncodeWireEra(x.era), EncodeCompact(x.nonce), EncodeCompact(x.tip), EncodeCompact(x.appId), rest);
    EraRoundTrip(x.era, b1);
    CompactU32RoundTrip(x.nonce, b2);
    CompactU128RoundTrip(x.tip, b3);
    CompactU32RoundTrip(x.appId, rest);
  }

  lemma ExtraCanonical(b: Bytes)
    requires DecodeExtra(b).Parsed?
    ensures var p := DecodeExtra(b); b == EncodeExtra(p.value) + p.rest
  {
    hide DecodeEra, DecodeCompactU32, DecodeCompactU128, EncodeCompact, EncodeEra;
    var x, rest := DecodeExtra(b).value, DecodeExtra(b).rest;
    var b1 := DecodeEra(b).rest;
    var b2 := DecodeCompactU32(b1).rest;
    var b3 := DecodeCompactU128(b2).rest;
    EraCanonical(b);
    CompactU32Canonical(b1);
    CompactU128Canonical(b2);
    CompactU32Canonical(b3);
    Reassociate(EncodeWireEra(x.era), EncodeCompact(x.nonce), EncodeCompact(x.tip), EncodeCompact(x.appId), rest);
  }

  function EncodeSignature(s: ExtrinsicSignature): Bytes {
    EncodeAddress(s.address) + EncodeMultiSignature(s.signature) + EncodeExtra(s.extra)
  }

  function DecodeSignature(b: Bytes): Parsed<ExtrinsicSignature> {
    match DecodeAddress(b)
    case Bad => Bad
    case Parsed(address, b1) =>
      match DecodeMultiSignature(b1)
      case Bad => Bad
      case Parsed(signature, b2) =>
        match DecodeExtra(b2)
        case Bad => Bad
        case Parsed(extra, rest) => Parsed(ExtrinsicSignature(address, signature, extra), rest)
  }

  lemma SignatureRoundTrip(s: ExtrinsicSignature, rest: Bytes)
    ensures DecodeSignature(EncodeSignature(s) + rest) == Parsed(s, rest)
  {
    hide DecodeAddress, EncodeAddress, DecodeMultiSignature, EncodeMultiSignature, DecodeExtra, EncodeExtra;
    var b2 := EncodeExtra(s.extra) + rest;
    var b1 := EncodeMultiSignature(s.signature) + b2;
    assert EncodeSignature(s) + rest == EncodeAddress(s.address) + b1;
    AddressRoundTrip(s.address, b1);
    MultiSignatureRoundTrip(s.signature, b2);
    ExtraRoundTrip(s.extra, rest);
  }

  lemma SignatureCanonical(b: Bytes)
    requires DecodeSignature(b).Parsed?
    ensures var p := DecodeSignature(b); b == EncodeSignature(p.value) + p.rest
  {
    hide DecodeAddress, EncodeAddress, DecodeMultiSignature, EncodeMultiSignature, DecodeExtra, EncodeExtra;
    AddressCanonical(b);
    var b1 := DecodeAddress(b).rest;
    MultiSignatureCanonical(b1);
    ExtraCanonical(DecodeMultiSignature(b1).rest);
  }

  // ---------------------------------------------------------------- the envelope

  /** The version byte, what was signed if anything, and the call. */
  function EncodeInner(signature: Option<ExtrinsicSignature>, call: Bytes): Bytes {
    (match signature
     case Some(s) => [0x84] + EncodeSignature(s)
     case None => [0x4]) + call
  }

  /** The inner bytes behind a compact length that is cut to 32 bits. */
  function EncodeExtrinsic(x: EncodedExtrinsic): Bytes {
    var inner := EncodeInner(x.signature, x.call);
    EncodeCompact(|inner| % U32_RANGE) + inner
  }

  /** What `EncodedExtrinsic::decode` accepts, and as what. */
  function DecodeExtrinsic(b: Bytes): Option<EncodedExtrinsic> {
    match DecodeCompactU32(b)
    case Bad => None
    case Parsed(expected, body) =>
      match DecodeInner(body)
      case None => None
      case Some(x) => if |body| == expected then Some(x) else None
  }

  function DecodeInner(body: Bytes): Option<EncodedExtrinsic> {
    if body == [] || body[0] % SIGNED_FLAG != EXTRINSIC_FORMAT_VERSION then None
    else if body[0] < SIGNED_FLAG then Some(EncodedExtrinsic(None, body[1..]))
    else
      match DecodeSignature(body[1..])
      case Bad => None
      case Parsed(s, call) => Some(EncodedExtrinsic(Some(s), call))
  }

  lemma InnerRoundTrip(x: EncodedExtrinsic)
    ensures DecodeInner(EncodeInner(x.signature, x.call)) == Some(x)
  {
    hide DecodeSignature, EncodeSignature;
    match x.signature
    case Some(s) => TagRoundTrip(0x84, EncodeSignature(s), x.call); SignatureRoundTrip(s, x.call);
    case None => TagRoundTrip(0x4, [], x.call); assert [0x4] + [] + x.call == [0x4] + x.call;
  }

  lemma InnerCanonical(body: Bytes)
    requires DecodeInner(body).Some?
    ensures var x := DecodeInner(body).value; EncodeInner(x.signature, x.call) == body
  {
    hide DecodeSignature, EncodeSignature;
    var x := DecodeInner(body).value;
    assert body == [body[0]] + body[1..];
    if body[0] >= SIGNED_FLAG {
      SignatureCanonical(body[1..]);
      assert body[0] == 0x84;
      assert body == [0x84] + EncodeSignature(x.signature.value) + x.call;
    }
  }

  /** Decoding gives back what was encoded exactly when the inner length fits the length prefix. */
  lemma {:induction false} ExtrinsicRoundTripIff(x: EncodedExtrinsic)
    ensures DecodeExtrinsic(EncodeExtrinsic(x)) == Some(x) <==> |EncodeInner(x.signature, x.call)| < U32_RANGE
  {
    hide DecodeInner, EncodeInner, DecodeCompactU32, EncodeCompact;
    var inner := EncodeInner(x.signature, x.call);
    CompactU32RoundTrip(|inner| % U32_RANGE, inner);
    InnerRoundTrip(x);
  }

  /** Every accepted byte string is the encoding of what it is accepted as. */
  lemma {:induction false} AcceptedIsEncoding(b: Bytes)
    requires DecodeExtrinsic(b).Some?
    ensures var x := DecodeExtrinsic(b).value; EncodeExtrinsic(x) == b && |EncodeInner(x.signature, x.call)| < U32_RANGE
  {
    hide DecodeInner, EncodeInner, DecodeCompactU32, EncodeCompact;
    CompactU32Canonical(b);
    InnerCanonical(DecodeCompactU32(b).rest);
  }

  /** No accepted byte string is a proper prefix of another: cut short or run on, it is rejected. */
  lemma {:induction false} TruncatedOrExtendedIsRejected(b: Bytes, tail: Bytes)
    requires tail != []
    ensures DecodeExtrinsic(b).None? || DecodeExtrinsic(b + tail).None?
  {
    hide DecodeInner, DecodeCompactU32, EncodeCompact;
    if DecodeExtrinsic(b).Some? {
      CompactU32Canonical(b);
      var p := DecodeCompactU32(b);
      assert b + tail == EncodeCompact(p.value) + (p.rest + tail);
      CompactU32RoundTrip(p.value, p.rest + tail);
    }
  }

  // ---------------------------------------------------------------- the structured call

  function EncodeCall(c: ExtrinsicCall): Bytes { [c.palletId, c.variantId] + c.data }

  /** Two id bytes, then everything that is left. */
  function DecodeCall(b: Bytes): Option<ExtrinsicCall> {
    if |b| < 2 then None else Some(ExtrinsicCall(b[0], b[1], b[2..]))
  }

  function EncodeGeneric(x: GenericExtrinsic): Bytes {
    var inner := EncodeInner(x.signature, EncodeCall(x.call));
    EncodeCompact(|inner| % U32_RANGE) + inner
  }

  /** `GenericExtrinsic::decode`: the same envelope, with the call split into its parts. */
  function DecodeGeneric(b: Bytes): Option<GenericExtrinsic> {
    match DecodeExtrinsic(b)
    case None => None
    case Some(x) =>
      match DecodeCall(x.call)
      case None => None
      case Some(c) => Some(GenericExtrinsic(x.signature, c))
  }

  /**
   Either decoder makes of a generic extrinsic's encoding the same signature and the same call bytes,
   exactly when the inner length fits the length prefix.
   */
  lemma {:induction false} GenericDecodesBothWaysIff(x: GenericExtrinsic)
    ensures DecodeExtrinsic(EncodeGeneric(x)) == Some(EncodedExtrinsic(x.signature, EncodeCall(x.call)))
       <==> |EncodeInner(x.signature, EncodeCall(x.call))| < U32_RANGE
    ensures DecodeGeneric(EncodeGeneric(x)) == Some(x) <==> |EncodeInner(x.signature, EncodeCall(x.call))| < U32_RANGE
  {
    hide DecodeInner, EncodeInner, DecodeCompactU32, EncodeCompact;
    ExtrinsicRoundTripIff(EncodedExtrinsic(x.signature, EncodeCall(x.call)));
    assert EncodeCall(x.call)[2..] == x.call.data;
    if DecodeGeneric(EncodeGeneric(x)) == Some(x) {
      AcceptedIsEncoding(EncodeGeneric(x));
      var call := DecodeExtrinsic(EncodeGeneric(x)).value.call;
      assert call == [call[0], call[1]] + call[2..];
    }
  }

  lemma {:induction false} GenericAcceptedIsEncoding(b: Bytes)
    requires DecodeGeneric(b).Some?
    ensures EncodeGeneric(DecodeGeneric(b).value) == b
  {
    hide DecodeInner, EncodeInner, DecodeCompactU32, EncodeCompact;
    AcceptedIsEncoding(b);
    var call := DecodeExtrinsic(b).value.call;
    assert call == [call[0], call[1]] + call[2..];
  }

  // ---------------------------------------------------------------- decoding from a mutable input

  /** A byte slice that decoding advances. */
  class Input {
    var data: Bytes

    constructor (data: Bytes)
      ensures this.data == data
    {
      this.data := data;
    }

    method ReadByte() returns (r: Result<Byte>)
      modifies this
      ensures old(data) == [] ==> r.Err? && data == []
      ensures old(data) != [] ==> r == Ok(old(data)[0]) && data == old(data)[1..]
    {
      if data == [] { return Err(DecodingFailed); }
      r := Ok(data[0]);
      data := data[1..];
    }

    /** Fills a buffer, or fails without touching either. */
    method Read(into: array<Byte>) returns (ok: bool)
      modifies this, into
      ensures ok <==> into.Length <= |old(data)|
      ensures ok ==> into[..] == old(data)[..into.Length] && data == old(data)[into.Length..]
      ensures !ok ==> into[..] == old(into[..]) && data == old(data)
    {
      if into.Length > |data| { return false; }
      forall i | 0 <= i < into.Length { into[i] := data[i]; }
      data := data[into.Length..];
      ok := true;
    }

    method ReadCompactU32() returns (r: Result<U32>)
      modifies this
      ensures match DecodeCompactU32(old(data))
        case Bad => r.Err? && data == old(data)
        case Parsed(n, rest) => r == Ok(n) && data == rest
    {
      match DecodeCompactU32(data) {
        case Bad => r := Err(DecodingFailed);
        case Parsed(n, rest) => r, data := Ok(n), rest;
      }
    }

    method ReadSignature() returns (r: Result<ExtrinsicSignature>)
      modifies this
      ensures match DecodeSignature(old(data))
        case Bad => r.Err? && data == old(data)
        case Parsed(s, rest) => r == Ok(s) && data == rest
    {
      match DecodeSignature(data) {
        case Bad => r := Err(DecodingFailed);
        case Parsed(s, rest) => r, data := Ok(s), rest;
      }
    }
  }

  /** Everything that is left, copied through a buffer of that length. */
  method DecodeAlreadyDecoded(input: Input) returns (value: Bytes)
    modifies input
    ensures value == old(input.data) && input.data == []
  {
    var length := |input.data|;
    if length == 0 { return []; }
    var buffer := new Byte[length](i => 0);
    var ok := input.Read(buffer);
    value := buffer[..];
  }

  method DecodeEncodedExtrinsic(input: Input) returns (r: Result<EncodedExtrinsic>)
    modifies input
    ensures r.Ok? <==> DecodeExtrinsic(old(input.data)).Some?
    ensures r.Ok? ==> Some(r.value) == DecodeExtrinsic(old(input.data)) && input.data == []
  {
    var expectedLength := input.ReadCompactU32();
    if expectedLength.Err? { return Err(expectedLength.error); }
    var beforeLength := |input.data|;
    var version := input.ReadByte();
    if version.Err? { return Err(version.error); }
    var isSigned := version.value >= SIGNED_FLAG;
    if version.value % SIGNED_FLAG != EXTRINSIC_FORMAT_VERSION { return Err(DecodingFailed); }
    var signature: Option<ExtrinsicSignature> := None;
    if isSigned {
      var s := input.ReadSignature();
      if s.Err? { return Err(s.error); }
      signature := Some(s.value);
    }
    var call := DecodeAlreadyDecoded(input);
    var afterLength := |input.data|;
    if SaturatingSub(beforeLength, afterLength) != expectedLength.value { return Err(DecodingFailed); }
    r := Ok(EncodedExtrinsic(signature, call));
  }
}
