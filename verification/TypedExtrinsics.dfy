/**
 What reading a block's listed extrinsics comes to: as opaque extrinsics, as extrinsics of one call
 type, and as multisigs. The extrinsic subscriptions read every block they come to this way.
 */
module TypedExtrinsics {
  import opened Prelude
  import opened Extrinsics
  import opened Calls
  import opened Adapters
  import Hex

  type Listed = (Option<ExtrinsicSignature>, RuntimeCall)

  /** `from_extrinsic_info`: the data must be there, be hexadecimal, and be an extrinsic. */
  function AsEncoded(data: Option<string>): Option<EncodedExtrinsic> {
    match data
    case None => None
    case Some(text) =>
      match Hex.DecodePrefixed(text)
      case None => None
      case Some(bytes) => DecodeExtrinsic(bytes)
  }

  /** `as_extrinsic` for the call type with the given header. */
  function AsTyped(header: (Byte, Byte), data: Option<string>): Option<Listed> {
    match AsEncoded(data)
    case None => None
    case Some(x) =>
      match FromCall(header, x.call)
      case None => None
      case Some(c) => Some((x.signature, c))
  }

  function TypedDecoder(header: (Byte, Byte)): Option<string> -> Option<Listed> {
    data => AsTyped(header, data)
  }

  /** How a node lists an extrinsic. */
  function Listing(signature: Option<ExtrinsicSignature>, call: Bytes): Option<string> {
    Some(Hex.EncodePrefixed(EncodeExtrinsic(EncodedExtrinsic(signature, call))))
  }

  function ListingOf(x: Listed): Option<string> { Listing(x.0, ToCall(x.1)) }

  function ListingsOf(xs: seq<Listed>): (items: seq<Option<string>>)
    ensures |items| == |xs| && forall i :: 0 <= i < |xs| ==> items[i] == ListingOf(xs[i])
  {
    seq(|xs|, i requires 0 <= i < |xs| => ListingOf(xs[i]))
  }

  predicate Fits(signature: Option<ExtrinsicSignature>, call: Bytes) { |EncodeInner(signature, call)| < U32_RANGE }

  lemma ListingIsRead(signature: Option<ExtrinsicSignature>, call: Bytes)
    requires Fits(signature, call)
    ensures AsEncoded(Listing(signature, call)) == Some(EncodedExtrinsic(signature, call))
  {
    hide DecodeExtrinsic, EncodeExtrinsic, EncodeInner, Hex.DecodePrefixed, Hex.EncodePrefixed;
    var x := EncodedExtrinsic(signature, call);
    Hex.PrefixedRoundTrip(EncodeExtrinsic(x));
    ExtrinsicRoundTripIff(x);
  }

  /** A listed extrinsic is read as a call type exactly when it is of that type, and then comes back itself. */
  lemma TypedIff(header: (Byte, Byte), x: Listed)
    requires Fits(x.0, ToCall(x.1))
    ensures AsTyped(header, ListingOf(x)) == if Header(x.1) == header then Some(x) else None
  {
    hide AsEncoded, Listing, Fits, DecodeRuntimeCall, EncodeBody, Header;
    ListingIsRead(x.0, ToCall(x.1));
    CallRoundTrip(x.1, []);
    assert ToCall(x.1) + [] == ToCall(x.1);
  }

  /**
   A block can be read exactly when everything the filter lists is of the subscription's call type: one
   extrinsic of another type, and the block is never read and never passed.
   */
  lemma {:induction false} ReadableIffAllOfType(header: (Byte, Byte), xs: seq<Listed>)
    requires forall i :: 0 <= i < |xs| ==> Fits(xs[i].0, ToCall(xs[i].1))
    ensures Read(TypedDecoder(header), ListingsOf(xs)) ==
      if forall i :: 0 <= i < |xs| ==> Header(xs[i].1) == header then Some(xs) else None
  {
    hide AsTyped, Fits, ListingOf, Header;
    var items := ListingsOf(xs);
    ReadIff(TypedDecoder(header), items);
    forall i | 0 <= i < |xs|
      ensures TypedDecoder(header)(items[i]) == if Header(xs[i].1) == header then Some(xs[i]) else None
    {
      TypedIff(header, xs[i]);
    }
    var read := Read(TypedDecoder(header), items);
    if read.Some? {
      assert forall i :: 0 <= i < |xs| ==> TypedDecoder(header)(items[i]) == Some(read.value[i]);
      assert read.value == xs;
    }
  }

  /** The pallet and variant id of a multisig. */
  const MULTISIG_HEADER: (Byte, Byte) := (34, 1)

  function AsMultisig(data: Option<string>): Option<(Option<ExtrinsicSignature>, AsMulti)> {
    match AsEncoded(data)
    case None => None
    case Some(x) =>
      if |x.call| < 2 || (x.call[0], x.call[1]) != MULTISIG_HEADER then None
      else
        match DecodeAsMulti(x.call[2..])
        case Bad => None
        case Parsed(m, _) => Some((x.signature, m))
  }

  /**
   A subscription to multisigs reads one exactly when the call in it has a body of two bytes and is no
   batch and no proxy, and even then not as the one that was sent.
   */
  lemma {:induction false} MultisigReadableIff(signature: Option<ExtrinsicSignature>, m: AsMulti, c: RuntimeCall)
    requires m.call == AsExtrinsicCall(c)
    requires Fits(signature, [34, 1] + EncodeAsMulti(m))
    ensures var read := AsMultisig(Listing(signature, [34, 1] + EncodeAsMulti(m)));
      (read.Some? <==> !Greedy(c) && |EncodeBody(c)| >= 2) && read != Some((signature, m))
  {
    hide AsEncoded, Listing, Fits, DecodeAsMulti, EncodeAsMulti, EncodeBody, Greedy;
    var call := [34, 1] + EncodeAsMulti(m);
    ListingIsRead(signature, call);
    MultisigCallIsNeverRecovered(m, c, []);
    assert call[2..] == EncodeAsMulti(m) && EncodeAsMulti(m) + [] == EncodeAsMulti(m);
  }
}
