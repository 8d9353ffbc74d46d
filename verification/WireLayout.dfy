/**
 Where every byte of an extrinsic stands. The positions, tags and widths are written out here on their
 own, and proved of what the encoder writes and of everything the decoder accepts.
 */
module WireLayout {
  import opened Prelude
  import opened Scale
  import opened Mortality
  import opened Extrinsics

  /** The bytes of b from `at` on begin with x. */
  predicate StandsAt(b: Bytes, at: nat, x: Bytes) {
    at + |x| <= |b| && b[at..at + |x|] == x
  }

  function AddressWidth(a: MultiAddress): nat {
    match a
    case Id(_) => 33
    case Index(n) => 1 + |EncodeCompact(n)|
    case Raw(v) => 1 + |EncodeCompact(|v|)| + |v|
    case Address32(_) => 33
    case Address20(_) => 21
  }

  /** A tag from 0 to 4, then the body: of fixed length, a compact integer, or with its length in front. */
  predicate AddressAt(b: Bytes, at: nat, a: MultiAddress) {
    && at < |b|
    && match a
       case Id(account) => b[at] == 0 && StandsAt(b, at + 1, account)
       case Index(n) => b[at] == 1 && StandsAt(b, at + 1, EncodeCompact(n))
       case Raw(v) =>
         && b[at] == 2 && StandsAt(b, at + 1, EncodeCompact(|v|))
         && StandsAt(b, at + 1 + |EncodeCompact(|v|)|, v)
       case Address32(x) => b[at] == 3 && StandsAt(b, at + 1, x)
       case Address20(x) => b[at] == 4 && StandsAt(b, at + 1, x)
  }

  function SignatureWidth(s: MultiSignature): nat {
    match s
    case Ed25519(_) => 65
    case Sr25519(_) => 65
    case Ecdsa(_) => 66
  }

  /** 0 for Ed25519, 1 for Sr25519, 2 for Ecdsa, then 64, 64 or 65 bytes. */
  predicate SignatureAt(b: Bytes, at: nat, s: MultiSignature) {
    && at < |b|
    && match s
       case Ed25519(x) => b[at] == 0 && StandsAt(b, at + 1, x)
       case Sr25519(x) => b[at] == 1 && StandsAt(b, at + 1, x)
       case Ecdsa(x) => b[at] == 2 && StandsAt(b, at + 1, x)
  }

  function EraWidth(era: Era): nat { if era.Immortal? then 1 else 2 }

  /**
   A zero byte, or two bytes: in the low four bits of the first the period's exponent less one, above
   them the phase in units of a 4096th of the period, and of at least one block.
   */
  ghost predicate EraStandsAt(b: Bytes, at: nat, era: Era) {
    && at + EraWidth(era) <= |b|
    && match era
       case Immortal => b[at] == 0
       case Mortal(period, phase) =>
         && 1 <= b[at] % 16 && period == Pow(2, b[at] % 16 + 1)
         && phase == (b[at] / 16 + b[at + 1] as nat * 16) * Max(period / 4096, 1)
  }

  /** Era, nonce, tip and app id, in this order. */
  ghost predicate ExtraAt(b: Bytes, at: nat, x: ExtrinsicExtra) {
    && EraStandsAt(b, at, x.era)
    && var nonceAt := at + EraWidth(x.era);
    && StandsAt(b, nonceAt, EncodeCompact(x.nonce))
    && var tipAt := nonceAt + |EncodeCompact(x.nonce)|;
    && StandsAt(b, tipAt, EncodeCompact(x.tip))
    && StandsAt(b, tipAt + |EncodeCompact(x.tip)|, EncodeCompact(x.appId))
  }

  function ExtraWidth(x: ExtrinsicExtra): nat {
    EraWidth(x.era) + |EncodeCompact(x.nonce)| + |EncodeCompact(x.tip)| + |EncodeCompact(x.appId)|
  }

  function InnerWidth(x: EncodedExtrinsic): nat {
    1 + |x.call| +
    match x.signature
    case None => 0
    case Some(s) => AddressWidth(s.address) + SignatureWidth(s.signature) + ExtraWidth(s.extra)
  }

  /** Address, signature and extra one after the other. */
  ghost predicate SignedAt(b: Bytes, at: nat, s: ExtrinsicSignature) {
    && AddressAt(b, at, s.address)
    && SignatureAt(b, at + AddressWidth(s.address), s.signature)
    && ExtraAt(b, at + AddressWidth(s.address) + SignatureWidth(s.signature), s.extra)
  }

  /** The compact length, 0x84 and the signed part or 0x04, and the call up to the end. */
  ghost predicate LaidOut(b: Bytes, x: EncodedExtrinsic) {
    var length := EncodeCompact(InnerWidth(x) % 0x1_0000_0000);
    && |b| == |length| + InnerWidth(x) && StandsAt(b, 0, length)
    && StandsAt(b, |b| - |x.call|, x.call)
    && match x.signature
       case None => b[|length|] == 0x04
       case Some(s) => b[|length|] == 0x84 && SignedAt(b, |length| + 1, s)
  }

  // ---------------------------------------------------------------- what the encoder writes

  lemma TagStands(before: Bytes, tag: Byte, x: Bytes, rest: Bytes)
    ensures var b := before + ([tag] + x) + rest;
      |before| < |b| && b[|before|] == tag && StandsAt(b, |before| + 1, x)
  {
    var b := before + ([tag] + x) + rest;
    assert b == (before + [tag]) + x + rest;
    StandsAfter(before + [tag], x, rest);
  }

  lemma AddressIsLaidOut(before: Bytes, a: MultiAddress, rest: Bytes)
    ensures |EncodeAddress(a)| == AddressWidth(a) && AddressAt(before + EncodeAddress(a) + rest, |before|, a)
  {
    hide EncodeCompact, StandsAt;
    match a
    case Id(x) => TagStands(before, 0, x, rest);
    case Index(n) => TagStands(before, 1, EncodeCompact(n), rest);
    case Raw(v) => RawIsLaidOut(before, v, rest);
    case Address32(x) => TagStands(before, 3, x, rest);
    case Address20(x) => TagStands(before, 4, x, rest);
  }

  lemma RawIsLaidOut(before: Bytes, v: Blob, rest: Bytes)
    ensures var b := before + ([2] + EncodeBlob(v)) + rest;
      && |before| < |b| && b[|before|] == 2 && StandsAt(b, |before| + 1, EncodeCompact(|v|))
      && StandsAt(b, |before| + 1 + |EncodeCompact(|v|)|, v)
  {
    hide EncodeCompact, StandsAt;
    var length := EncodeCompact(|v|);
    assert before + ([2] + EncodeBlob(v)) + rest == before + ([2] + length) + (v + rest);
    TagStands(before, 2, length, v + rest);
    assert before + ([2] + EncodeBlob(v)) + rest == (before + [2] + length) + v + rest;
    StandsAfter(before + [2] + length, v, rest);
  }

  lemma SignatureIsLaidOut(before: Bytes, s: MultiSignature, rest: Bytes)
    ensures |EncodeMultiSignature(s)| == SignatureWidth(s)
    ensures SignatureAt(before + EncodeMultiSignature(s) + rest, |before|, s)
  {
    hide StandsAt;
    match s
    case Ed25519(x) => TagStands(before, 0, x, rest);
    case Sr25519(x) => TagStands(before, 1, x, rest);
    case Ecdsa(x) => TagStands(before, 2, x, rest);
  }

  lemma EraIsLaidOut(before: Bytes, era: WireEra, rest: Bytes)
    ensures |EncodeWireEra(era)| == EraWidth(era) && EraStandsAt(before + EncodeWireEra(era) + rest, |before|, era)
  {
    var b := before + EncodeWireEra(era) + rest;
    if era.Mortal? {
      var e :| 2 <= e <= 16 && era.period == Pow(2, e);
      Pow2Grows(e, 16);
      Pow2Values();
      var n := PhaseMultiple(e, era.phase);
      EraCode(e, n, era.phase);
      EraBytes(e, n);
      assert b[|before|] == LE(e - 1 + n * 16, 2)[0] && b[|before| + 1] == LE(e - 1 + n * 16, 2)[1];
    }
  }

  lemma EraBytes(e: nat, n: nat)
    requires 2 <= e <= 16 && n < 4096
    ensures var b := LE(e - 1 + n * 16, 2); b[0] % 16 == e - 1 && b[0] / 16 + b[1] as nat * 16 == n
  {
    ShortLayout(e - 1 + n * 16);
  }

  lemma ExtraIsLaidOut(before: Bytes, x: ExtrinsicExtra, rest: Bytes)
    ensures |EncodeExtra(x)| == ExtraWidth(x) && ExtraAt(before + EncodeExtra(x) + rest, |before|, x)
  {
    hide EncodeCompact, EncodeWireEra, EraStandsAt;
    var nonce, tip, appId := EncodeCompact(x.nonce), EncodeCompact(x.tip), EncodeCompact(x.appId);
    var b := before + EncodeExtra(x) + rest;
    assert b == before + EncodeWireEra(x.era) + (nonce + tip + appId + rest);
    EraIsLaidOut(before, x.era, nonce + tip + appId + rest);
    StandsAfter(before + EncodeWireEra(x.era), nonce, tip + appId + rest);
    assert b == before + EncodeWireEra(x.era) + nonce + (tip + appId + rest);
    StandsAfter(before + EncodeWireEra(x.era) + nonce, tip, appId + rest);
    assert b == before + EncodeWireEra(x.era) + nonce + tip + (appId + rest);
    StandsAfter(before + EncodeWireEra(x.era) + nonce + tip, appId, rest);
    assert b == before + EncodeWireEra(x.era) + nonce + tip + appId + rest;
  }

  lemma StandsAfter(before: Bytes, x: Bytes, rest: Bytes)
    ensures StandsAt(before + x + rest, |before|, x)
  {
  }

  lemma SignedIsLaidOut(before: Bytes, s: ExtrinsicSignature, rest: Bytes)
    ensures |EncodeSignature(s)| == AddressWidth(s.address) + SignatureWidth(s.signature) + ExtraWidth(s.extra)
    ensures SignedAt(before + EncodeSignature(s) + rest, |before|, s)
  {
    hide EncodeAddress, EncodeMultiSignature, EncodeExtra, AddressAt, SignatureAt, ExtraAt;
    var a, m, e := EncodeAddress(s.address), EncodeMultiSignature(s.signature), EncodeExtra(s.extra);
    var b := before + EncodeSignature(s) + rest;
    assert b == before + a + (m + e + rest);
    AddressIsLaidOut(before, s.address, m + e + rest);
    assert b == before + a + m + (e + rest);
    SignatureIsLaidOut(before + a, s.signature, e + rest);
    assert b == before + a + m + e + rest;
    ExtraIsLaidOut(before + a + m, s.extra, rest);
  }

  /** Every byte of an encoded extrinsic is where the layout has it. */
  lemma {:induction false} EncodedIsLaidOut(x: EncodedExtrinsic)
    ensures LaidOut(EncodeExtrinsic(x), x)
  {
    hide EncodeCompact, EncodeSignature, SignedAt, StandsAt;
    var inner := EncodeInner(x.signature, x.call);
    var length := EncodeCompact(|inner| % 0x1_0000_0000);
    var b := EncodeExtrinsic(x);
    assert b == [] + length + inner;
    StandsAfter([], length, inner);
    assert b[|length|] == inner[0];
    if x.signature.Some? {
      var s := x.signature.value;
      var head := length + [0x84];
      assert b == head + EncodeSignature(s) + x.call;
      SignedIsLaidOut(head, s, x.call);
      assert b == (head + EncodeSignature(s)) + x.call + [];
      StandsAfter(head + EncodeSignature(s), x.call, []);
    } else {
      assert b == (length + [0x4]) + x.call + [];
      StandsAfter(length + [0x4], x.call, []);
    }
  }

  /** And so is every byte of anything the decoder accepts. */
  lemma {:induction false} AcceptedIsLaidOut(b: Bytes)
    requires DecodeExtrinsic(b).Some?
    ensures LaidOut(b, DecodeExtrinsic(b).value)
  {
    AcceptedIsEncoding(b);
    EncodedIsLaidOut(DecodeExtrinsic(b).value);
  }

  /** A generic extrinsic differs only in that its call begins with the pallet and variant id. */
  lemma GenericIsLaidOut(x: GenericExtrinsic)
    ensures LaidOut(EncodeGeneric(x), EncodedExtrinsic(x.signature, [x.call.palletId, x.call.variantId] + x.call.data))
  {
    EncodedIsLaidOut(EncodedExtrinsic(x.signature, EncodeCall(x.call)));
  }
}
