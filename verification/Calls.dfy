/**
 Runtime calls and batches of them. A representative set of calls is modelled: every kind of field
 (vectors, compact and plain integers, addresses, booleans, options, no field at all), and the
 calls whose body runs to the end of the input, which batches and proxies do.
 */
module Calls {
  import opened Prelude
  import opened Scale
  import opened Extrinsics

  datatype ProxyType = Any | NonTransfer | Governance | Staking | IdentityJudgement | NominationPools

  datatype RuntimeCall =
    | SystemRemark(remark: Blob)
    | UtilityBatch(batchLength: U32, batchCalls: Bytes)
    | UtilityBatchAll(allLength: U32, allCalls: Bytes)
    | UtilityForceBatch(forceLength: U32, forceCalls: Bytes)
    | TimestampSet(now: U64)
    | BalancesTransferKeepAlive(dest: MultiAddress, value: U128)
    | BalancesTransferAll(to: MultiAddress, keepAlive: bool)
    | StakingChill
    | SessionPurgeKeys
    | DataAvailabilityCreateApplicationKey(key: Blob)
    | DataAvailabilitySubmitData(data: Blob)
    | ProxyProxy(id: MultiAddress, forceProxyType: Option<ProxyType>, call: ExtrinsicCall)
    | ProxyAddProxy(delegate: MultiAddress, proxyType: ProxyType, delay: U32)
    | ProxyCreatePure(pureType: ProxyType, pureDelay: U32, index: U16)

  /** The pallet and variant id. */
  function Header(c: RuntimeCall): (Byte, Byte) {
    match c
    case SystemRemark(_) => (0, 0)
    case UtilityBatch(_, _) => (1, 0)
    case UtilityBatchAll(_, _) => (1, 2)
    case UtilityForceBatch(_, _) => (1, 4)
    case TimestampSet(_) => (3, 0)
    case BalancesTransferKeepAlive(_, _) => (6, 3)
    case BalancesTransferAll(_, _) => (6, 4)
    case StakingChill => (10, 6)
    case SessionPurgeKeys => (11, 1)
    case DataAvailabilityCreateApplicationKey(_) => (29, 0)
    case DataAvailabilitySubmitData(_) => (29, 1)
    case ProxyProxy(_, _, _) => (40, 0)
    case ProxyAddProxy(_, _, _) => (40, 1)
    case ProxyCreatePure(_, _, _) => (40, 4)
  }

  /** The body runs to the end of the input, so nothing can follow it. */
  predicate Greedy(c: RuntimeCall) {
    c.UtilityBatch? || c.UtilityBatchAll? || c.UtilityForceBatch? || c.ProxyProxy?
  }

  // ---------------------------------------------------------------- fields

  function ProxyTag(t: ProxyType): Byte {
    match t
    case Any => 0
    case NonTransfer => 1
    case Governance => 2
    case Staking => 3
    case IdentityJudgement => 4
    case NominationPools => 5
  }

  function DecodeProxyType(b: Bytes): Parsed<ProxyType> {
    if b == [] then Bad
    else match b[0]
      case 0 => Parsed(Any, b[1..])
      case 1 => Parsed(NonTransfer, b[1..])
      case 2 => Parsed(Governance, b[1..])
      case 3 => Parsed(Staking, b[1..])
      case 4 => Parsed(IdentityJudgement, b[1..])
      case 5 => Parsed(NominationPools, b[1..])
      case _ => Bad
  }

  function EncodeMaybeProxyType(t: Option<ProxyType>): Bytes {
    match t
    case None => [0]
    case Some(p) => [1, ProxyTag(p)]
  }

  function DecodeMaybeProxyType(b: Bytes): Parsed<Option<ProxyType>> {
    if b == [] then Bad
    else if b[0] == 0 then Parsed(None, b[1..])
    else if b[0] != 1 then Bad
    else match DecodeProxyType(b[1..])
      case Bad => Bad
      case Parsed(p, rest) => Parsed(Some(p), rest)
  }

  function DecodeBool(b: Bytes): Parsed<bool> {
    if b == [] || b[0] > 1 then Bad else Parsed(b[0] == 1, b[1..])
  }

  /** A length and whatever bytes are left, as the three batch calls decode themselves. */
  function DecodeBatch(b: Bytes): Parsed<(U32, Bytes)> {
    match DecodeCompactU32(b)
    case Bad => Bad
    case Parsed(n, calls) => Parsed((n, calls), [])
  }

  // ---------------------------------------------------------------- bodies

  function EncodeBody(c: RuntimeCall): Bytes {
    Pow256Values();
    match c
    case SystemRemark(v) => EncodeBlob(v)
    case UtilityBatch(n, calls) => EncodeCompact(n) + calls
    case UtilityBatchAll(n, calls) => EncodeCompact(n) + calls
    case UtilityForceBatch(n, calls) => EncodeCompact(n) + calls
    case TimestampSet(now) => EncodeCompact(now)
    case BalancesTransferKeepAlive(dest, value) => EncodeAddress(dest) + EncodeCompact(value)
    case BalancesTransferAll(dest, keepAlive) => EncodeAddress(dest) + [if keepAlive then 1 else 0]
    case StakingChill => []
    case SessionPurgeKeys => []
    case DataAvailabilityCreateApplicationKey(v) => EncodeBlob(v)
    case DataAvailabilitySubmitData(v) => EncodeBlob(v)
    case ProxyProxy(id, t, call) => EncodeAddress(id) + EncodeMaybeProxyType(t) + EncodeCall(call)
    case ProxyAddProxy(id, t, delay) => EncodeAddress(id) + [ProxyTag(t)] + LE(delay, 4)
    case ProxyCreatePure(t, delay, index) => [ProxyTag(t)] + LE(delay, 4) + LE(index, 2)
  }

  function DecodeU64Compact(b: Bytes): Parsed<U64> {
    match DecodeCompact(b, 8)
    case Bad => Bad
    case Parsed(n, rest) =>
      CompactCanonical(b, 8);
      Pow256Values();
      Parsed(n, rest)
  }

  function DecodeU32(b: Bytes): Parsed<U32> {
    match DecodeLE(b, 4)
    case Bad => Bad
    case Parsed(n, rest) =>
      IntCanonical(b, 4);
      Pow256Values();
      Parsed(n, rest)
  }

  function DecodeU16(b: Bytes): Parsed<U16> {
    match DecodeLE(b, 2)
    case Bad => Bad
    case Parsed(n, rest) =>
      IntCanonical(b, 2);
      Pow256Values();
      Parsed(n, rest)
  }

  function DecodeTransferKeepAlive(b: Bytes): Parsed<RuntimeCall> {
    match DecodeAddress(b)
    case Bad => Bad
    case Parsed(dest, b1) =>
      match DecodeCompactU128(b1)
      case Bad => Bad
      case Parsed(value, rest) => Parsed(BalancesTransferKeepAlive(dest, value), rest)
  }

  function DecodeTransferAll(b: Bytes): Parsed<RuntimeCall> {
    match DecodeAddress(b)
    case Bad => Bad
    case Parsed(dest, b1) =>
      match DecodeBool(b1)
      case Bad => Bad
      case Parsed(keepAlive, rest) => Parsed(BalancesTransferAll(dest, keepAlive), rest)
  }

  function DecodeProxy(b: Bytes): Parsed<RuntimeCall> {
    match DecodeAddress(b)
    case Bad => Bad
    case Parsed(id, b1) =>
      match DecodeMaybeProxyType(b1)
      case Bad => Bad
      case Parsed(t, b2) =>
        match DecodeCall(b2)
        case None => Bad
        case Some(call) => Parsed(ProxyProxy(id, t, call), [])
  }

  function DecodeAddProxy(b: Bytes): Parsed<RuntimeCall> {
    match DecodeAddress(b)
    case Bad => Bad
    case Parsed(id, b1) =>
      match DecodeProxyType(b1)
      case Bad => Bad
      case Parsed(t, b2) =>
        match DecodeU32(b2)
        case Bad => Bad
        case Parsed(delay, rest) => Parsed(ProxyAddProxy(id, t, delay), rest)
  }

  function DecodeCreatePure(b: Bytes): Parsed<RuntimeCall> {
    match DecodeProxyType(b)
    case Bad => Bad
    case Parsed(t, b1) =>
      match DecodeU32(b1)
      case Bad => Bad
      case Parsed(delay, b2) =>
        match DecodeU16(b2)
        case Bad => Bad
        case Parsed(index, rest) => Parsed(ProxyCreatePure(t, delay, index), rest)
  }

  /** The body of the call a header names, from the bytes after the header. */
  function DecodeBody(header: (Byte, Byte), b: Bytes): Parsed<RuntimeCall> {
    match header
    case (3, 0) => (match DecodeU64Compact(b) case Bad => Bad case Parsed(n, rest) => Parsed(TimestampSet(n), rest))
    case (11, 1) => Parsed(SessionPurgeKeys, b)
    case (6, 3) => DecodeTransferKeepAlive(b)
    case (6, 4) => DecodeTransferAll(b)
    case (1, 0) => (match DecodeBatch(b) case Bad => Bad case Parsed(x, rest) => Parsed(UtilityBatch(x.0, x.1), rest))
    case (1, 2) =>
      (match DecodeBatch(b) case Bad => Bad case Parsed(x, rest) => Parsed(UtilityBatchAll(x.0, x.1), rest))
    case (1, 4) =>
      (match DecodeBatch(b) case Bad => Bad case Parsed(x, rest) => Parsed(UtilityForceBatch(x.0, x.1), rest))
    case (0, 0) => (match DecodeBlob(b) case Bad => Bad case Parsed(v, rest) => Parsed(SystemRemark(v), rest))
    case (40, 0) => DecodeProxy(b)
    case (40, 1) => DecodeAddProxy(b)
    case (40, 4) => DecodeCreatePure(b)
    case (29, 0) =>
      (match DecodeBlob(b)
       case Bad => Bad
       case Parsed(v, rest) => Parsed(DataAvailabilityCreateApplicationKey(v), rest))
    case (29, 1) =>
      (match DecodeBlob(b) case Bad => Bad case Parsed(v, rest) => Parsed(DataAvailabilitySubmitData(v), rest))
    case (10, 6) => Parsed(StakingChill, b)
    case _ => Bad
  }

  function DecodeRuntimeCall(b: Bytes): Parsed<RuntimeCall> {
    if |b| < 2 then Bad else DecodeBody((b[0], b[1]), b[2..])
  }

  /** `TransactionEncodable::to_call`: the header, then the body. */
  function ToCall(c: RuntimeCall): Bytes {
    [Header(c).0, Header(c).1] + EncodeBody(c)
  }

  /** `ExtrinsicCall::from`. */
  function AsExtrinsicCall(c: RuntimeCall): ExtrinsicCall {
    ExtrinsicCall(Header(c).0, Header(c).1, EncodeBody(c))
  }

  // ---------------------------------------------------------------- field round trips

  lemma ProxyTypeRoundTrip(t: ProxyType, rest: Bytes)
    ensures DecodeProxyType([ProxyTag(t)] + rest) == Parsed(t, rest)
  {
  }

  lemma MaybeProxyTypeRoundTrip(t: Option<ProxyType>, rest: Bytes)
    ensures DecodeMaybeProxyType(EncodeMaybeProxyType(t) + rest) == Parsed(t, rest)
  {
    if t.Some? {
      ProxyTypeRoundTrip(t.value, rest);
      assert (EncodeMaybeProxyType(t) + rest)[1..] == [ProxyTag(t.value)] + rest;
    }
  }

  lemma U32RoundTrip(n: U32, rest: Bytes)
    ensures DecodeU32(LE(n, 4) + rest) == Parsed(n, rest)
  {
    Pow256Values();
    IntRoundTrip(n, 4, rest);
  }

  lemma U16RoundTrip(n: U16, rest: Bytes)
    ensures DecodeU16(LE(n, 2) + rest) == Parsed(n, rest)
  {
    Pow256Values();
    IntRoundTrip(n, 2, rest);
  }

  lemma TimestampRoundTrip(n: U64, rest: Bytes)
    ensures DecodeU64Compact(EncodeCompact(n) + rest) == Parsed(n, rest)
  {
    Pow256Values();
    CompactRoundTrip(n, 8, rest);
  }

  lemma TransferRoundTrip(c: RuntimeCall, rest: Bytes)
    requires c.BalancesTransferKeepAlive? || c.BalancesTransferAll?
    ensures DecodeBody(Header(c), EncodeBody(c) + rest) == Parsed(c, rest)
  {
    hide DecodeAddress, EncodeAddress, DecodeCompactU128, EncodeCompact;
    if c.BalancesTransferKeepAlive? {
      Regroup(EncodeAddress(c.dest), EncodeCompact(c.value), rest);
      AddressRoundTrip(c.dest, EncodeCompact(c.value) + rest);
      CompactU128RoundTrip(c.value, rest);
    } else {
      var flag: Bytes := [if c.keepAlive then 1 else 0];
      Regroup(EncodeAddress(c.to), flag, rest);
      AddressRoundTrip(c.to, flag + rest);
    }
  }

  lemma Regroup(a: Bytes, b: Bytes, rest: Bytes)
    ensures a + b + rest == a + (b + rest)
  {
  }

  lemma ProxyRoundTrip(c: RuntimeCall)
    requires c.ProxyProxy?
    ensures DecodeProxy(EncodeBody(c)) == Parsed(c, [])
  {
    hide DecodeAddress, EncodeAddress, DecodeMaybeProxyType, EncodeMaybeProxyType;
    var call := EncodeCall(c.call);
    Regroup(EncodeAddress(c.id), EncodeMaybeProxyType(c.forceProxyType), call);
    AddressRoundTrip(c.id, EncodeMaybeProxyType(c.forceProxyType) + call);
    MaybeProxyTypeRoundTrip(c.forceProxyType, call);
    assert call[2..] == c.call.data;
  }

  lemma AddProxyRoundTrip(c: RuntimeCall, rest: Bytes)
    requires c.ProxyAddProxy?
    ensures DecodeAddProxy(EncodeBody(c) + rest) == Parsed(c, rest)
  {
    hide DecodeAddress, EncodeAddress, DecodeProxyType, ProxyTag, DecodeU32;
    var b2 := LE(c.delay, 4) + rest;
    assert EncodeBody(c) + rest == EncodeAddress(c.delegate) + ([ProxyTag(c.proxyType)] + b2);
    AddressRoundTrip(c.delegate, [ProxyTag(c.proxyType)] + b2);
    ProxyTypeRoundTrip(c.proxyType, b2);
    U32RoundTrip(c.delay, rest);
  }

  lemma CreatePureRoundTrip(c: RuntimeCall, rest: Bytes)
    requires c.ProxyCreatePure?
    ensures DecodeCreatePure(EncodeBody(c) + rest) == Parsed(c, rest)
  {
    hide DecodeProxyType, ProxyTag, DecodeU32, DecodeU16;
    var b2 := LE(c.index, 2) + rest;
    var b1 := LE(c.pureDelay, 4) + b2;
    assert EncodeBody(c) + rest == [ProxyTag(c.pureType)] + b1;
    ProxyTypeRoundTrip(c.pureType, b1);
    U32RoundTrip(c.pureDelay, b2);
    U16RoundTrip(c.index, rest);
  }

  /** A batch swallows whatever follows it; on its own it comes back as it was. */
  lemma BatchBodyRoundTrip(n: U32, calls: Bytes)
    ensures DecodeBatch(EncodeCompact(n) + calls) == Parsed((n, calls), [])
  {
    hide DecodeCompactU32, EncodeCompact;
    CompactU32RoundTrip(n, calls);
  }

  lemma BodyRoundTrip(c: RuntimeCall, rest: Bytes)
    requires Greedy(c) ==> rest == []
    ensures DecodeBody(Header(c), EncodeBody(c) + rest) == Parsed(c, rest)
  {
    hide DecodeBlob, EncodeBlob, DecodeBatch, EncodeCompact, DecodeU64Compact, DecodeTransferKeepAlive,
      DecodeTransferAll, DecodeProxy, DecodeAddProxy, DecodeCreatePure, EncodeAddress, EncodeMaybeProxyType;
    if rest == [] { assert EncodeBody(c) + rest == EncodeBody(c); }
    match c
    case SystemRemark(v) => BlobRoundTrip(v, rest);
    case UtilityBatch(n, calls) => BatchBodyRoundTrip(n, calls);
    case UtilityBatchAll(n, calls) => BatchBodyRoundTrip(n, calls);
    case UtilityForceBatch(n, calls) => BatchBodyRoundTrip(n, calls);
    case TimestampSet(now) => TimestampRoundTrip(now, rest);
    case BalancesTransferKeepAlive(_, _) => TransferRoundTrip(c, rest);
    case BalancesTransferAll(_, _) => TransferRoundTrip(c, rest);
    case StakingChill => assert [] + rest == rest;
    case SessionPurgeKeys => assert [] + rest == rest;
    case DataAvailabilityCreateApplicationKey(v) => BlobRoundTrip(v, rest);
    case DataAvailabilitySubmitData(v) => BlobRoundTrip(v, rest);
    case ProxyProxy(_, _, _) => ProxyRoundTrip(c);
    case ProxyAddProxy(_, _, _) => AddProxyRoundTrip(c, rest);
    case ProxyCreatePure(_, _, _) => CreatePureRoundTrip(c, rest);
  }

  /** A self-delimiting call leaves exactly what follows it; a greedy one must come last. */
  lemma {:induction false} CallRoundTrip(c: RuntimeCall, rest: Bytes)
    requires Greedy(c) ==> rest == []
    ensures DecodeRuntimeCall(ToCall(c) + rest) == Parsed(c, rest)
  {
    hide DecodeBody, EncodeBody, Header;
    BodyRoundTrip(c, rest);
    var b := ToCall(c) + rest;
    assert b[2..] == EncodeBody(c) + rest && b[0] == Header(c).0 && b[1] == Header(c).1;
  }

  /** After a greedy call nothing is left to decode, whatever followed it. */
  lemma GreedyLeavesNothing(c: RuntimeCall, rest: Bytes)
    requires Greedy(c)
    ensures DecodeRuntimeCall(ToCall(c) + rest).Parsed? ==> DecodeRuntimeCall(ToCall(c) + rest).rest == []
  {
    hide EncodeBody, DecodeAddress, DecodeCompactU32, DecodeMaybeProxyType;
    var b := ToCall(c) + rest;
    assert b[0] == Header(c).0 && b[1] == Header(c).1;
  }

  // ---------------------------------------------------------------- batches

  function Concat(cs: seq<ExtrinsicCall>): Bytes {
    if cs == [] then [] else Concat(cs[..|cs| - 1]) + EncodeCall(cs[|cs| - 1])
  }

  lemma ConcatNothing()
    ensures Concat([]) == []
  {
  }

  lemma ConcatStep(cs: seq<ExtrinsicCall>, i: nat)
    requires i < |cs|
    ensures Concat(cs[..i + 1]) == Concat(cs[..i]) + EncodeCall(cs[i])
  {
    assert cs[..i + 1][..i] == cs[..i];
  }

  /** n calls, one after the other. */
  function DecodeMany(b: Bytes, n: nat): (r: Parsed<seq<RuntimeCall>>)
    ensures r.Parsed? ==> |r.value| == n
    decreases n
  {
    if n == 0 then Parsed([], b)
    else match DecodeRuntimeCall(b)
      case Bad => Bad
      case Parsed(c, rest) =>
        match DecodeMany(rest, n - 1)
        case Bad => Bad
        case Parsed(cs, rest') => Parsed([c] + cs, rest')
  }

  /** What `decode_calls` gives for a length and call bytes; a zero length ignores the bytes. */
  function DecodedCalls(length: U32, calls: Bytes): Option<seq<RuntimeCall>> {
    if length == 0 then Some([])
    else match DecodeMany(calls, length)
      case Bad => None
      case Parsed(cs, rest) => if rest == [] then Some(cs) else None
  }

  /** `Batch`; `BatchAll` and `ForceBatch` differ only in their header. */
  class Batch {
    var length: U32
    var calls: Bytes

    constructor ()
      ensures length == 0 && calls == []
    {
      length, calls := 0, [];
    }

    method AddCall(value: ExtrinsicCall)
      modifies this
      ensures length == (old(length) + 1) % U32_RANGE && calls == old(calls) + EncodeCall(value)
    {
      length := (length + 1) % U32_RANGE;
      calls := calls + EncodeCall(value);
    }

    method AddCalls(values: seq<ExtrinsicCall>)
      modifies this
      ensures length == (old(length) + |values|) % U32_RANGE && calls == old(calls) + Concat(values)
    {
      hide Concat, EncodeCall;
      ConcatNothing();
      for i := 0 to |values|
        invariant length == (old(length) + i) % U32_RANGE
        invariant calls == old(calls) + Concat(values[..i])
      {
        ConcatStep(values, i);
        AddCall(values[i]);
      }
      assert values[..|values|] == values;
    }

    method DecodeCalls() returns (r: Result<seq<RuntimeCall>>)
      ensures r.Ok? <==> DecodedCalls(length, calls).Some?
      ensures r.Ok? ==> Some(r.value) == DecodedCalls(length, calls)
    {
      hide DecodeBody, Resumed;
      if length == 0 { return Ok([]); }
      var runtimeCalls: seq<RuntimeCall> := [];
      var rest := calls;
      assert DecodeMany(calls, length) == Resumed([], DecodeMany(calls, length)) by {
        ResumeNone(DecodeMany(calls, length));
      }
      for i := 0 to length
        invariant |runtimeCalls| == i
        invariant DecodeMany(calls, length) == Resumed(runtimeCalls, DecodeMany(rest, length - i))
      {
        match DecodeRuntimeCall(rest) {
          case Bad =>
            ResumeBad(runtimeCalls);
            return Err(DecodingFailed);
          case Parsed(c, after) =>
            ResumeFirst(c, DecodeMany(after, length - i - 1));
            ResumeStep(runtimeCalls, c, DecodeMany(after, length - i - 1));
            runtimeCalls, rest := runtimeCalls + [c], after;
        }
      }
      ResumeEnd(runtimeCalls, rest);
      if rest != [] { return Err(DecodingFailed); }
      r := Ok(runtimeCalls);
    }
  }

  /** The calls decoded so far in front of what the rest decodes to. */
  function Resumed(done: seq<RuntimeCall>, more: Parsed<seq<RuntimeCall>>): Parsed<seq<RuntimeCall>> {
    if more.Bad? then Bad else Parsed(done + more.value, more.rest)
  }

  lemma ResumeNone(more: Parsed<seq<RuntimeCall>>)
    ensures Resumed([], more) == more
  {
    if more.Parsed? { assert [] + more.value == more.value; }
  }

  lemma ResumeFirst(c: RuntimeCall, more: Parsed<seq<RuntimeCall>>)
    ensures Resumed([c], more) == match more case Bad => Bad case Parsed(cs, rest) => Parsed([c] + cs, rest)
  {
  }

  lemma ResumeBad(done: seq<RuntimeCall>)
    ensures Resumed(done, Bad) == Bad
  {
  }

  lemma ResumeEnd(done: seq<RuntimeCall>, rest: Bytes)
    ensures Resumed(done, Parsed([], rest)) == Parsed(done, rest)
  {
    assert done + [] == done;
  }

  lemma ResumeStep(done: seq<RuntimeCall>, c: RuntimeCall, more: Parsed<seq<RuntimeCall>>)
    ensures Resumed(done + [c], more) == Resumed(done, Resumed([c], more))
  {
    if more.Parsed? { assert done + [c] + more.value == done + ([c] + more.value); }
  }

  // ---------------------------------------------------------------- building and decoding a batch

  /** The calls' bytes in order, first call first. */
  function Wire(cs: seq<RuntimeCall>): Bytes {
    if cs == [] then [] else ToCall(cs[0]) + Wire(cs[1..])
  }

  function AsExtrinsicCalls(cs: seq<RuntimeCall>): seq<ExtrinsicCall> {
    seq(|cs|, i requires 0 <= i < |cs| => AsExtrinsicCall(cs[i]))
  }

  lemma WireAppend(cs: seq<RuntimeCall>, c: RuntimeCall)
    ensures Wire(cs + [c]) == Wire(cs) + ToCall(c)
  {
    hide ToCall;
    if cs == [] {
      assert Wire([c]) == ToCall(c) + Wire([]);
    } else {
      assert (cs + [c])[1..] == cs[1..] + [c];
      WireAppend(cs[1..], c);
    }
  }

  /** What `add_call` accumulates is the calls' bytes in order. */
  lemma ConcatIsWire(cs: seq<RuntimeCall>)
    ensures Concat(AsExtrinsicCalls(cs)) == Wire(cs)
  {
    hide EncodeBody, Header;
    if cs == [] {
    } else {
      var n := |cs| - 1;
      ConcatIsWire(cs[..n]);
      WireAppend(cs[..n], cs[n]);
      assert cs[..n] + [cs[n]] == cs && AsExtrinsicCalls(cs)[..n] == AsExtrinsicCalls(cs[..n]);
    }
  }

  predicate OnlyLastGreedy(cs: seq<RuntimeCall>) {
    forall i :: 0 <= i < |cs| - 1 ==> !Greedy(cs[i])
  }

  lemma {:induction false} DecodeManyOfWire(cs: seq<RuntimeCall>)
    ensures OnlyLastGreedy(cs) ==> DecodeMany(Wire(cs), |cs|) == Parsed(cs, [])
    ensures !OnlyLastGreedy(cs) ==> DecodeMany(Wire(cs), |cs|).Bad?
  {
    hide DecodeRuntimeCall, ToCall, Greedy;
    if cs == [] {
    } else {
      var tail := cs[1..];
      DecodeManyOfWire(tail);
      if |cs| > 1 && Greedy(cs[0]) {
        GreedyLeavesNothing(cs[0], Wire(tail));
        NothingLeftIsBad();
      } else {
        CallRoundTrip(cs[0], Wire(tail));
        assert forall i :: 0 <= i < |tail| ==> tail[i] == cs[i + 1];
        assert OnlyLastGreedy(cs) <==> OnlyLastGreedy(tail);
        assert [cs[0]] + tail == cs;
      }
    }
  }

  lemma NoneGreedyInEmpty()
    ensures OnlyLastGreedy([])
  {
  }

  lemma NothingLeftIsBad()
    ensures DecodeRuntimeCall([]).Bad?
  {
  }

  /**
   Building a batch call by call and decoding it gives the same calls back exactly when there are
   fewer than 2^32 of them and none but the last runs to the end of its input.
   */
  lemma {:induction false} BatchRoundTripIff(cs: seq<RuntimeCall>)
    ensures DecodedCalls(|cs| % U32_RANGE, Concat(AsExtrinsicCalls(cs))) == Some(cs)
       <==> |cs| < U32_RANGE && OnlyLastGreedy(cs)
  {
    hide DecodeMany, Concat, AsExtrinsicCalls, Wire, OnlyLastGreedy;
    ConcatIsWire(cs);
    if |cs| < U32_RANGE {
      DecodeManyOfWire(cs);
      if cs == [] { NoneGreedyInEmpty(); }
    }
  }

  // ---------------------------------------------------------------- typed extrinsics

  /** `from_call` for the call type with the given header: bytes after the body are ignored. */
  function FromCall(header: (Byte, Byte), call: Bytes): Option<RuntimeCall> {
    if |call| < 2 || (call[0], call[1]) != header then None
    else match DecodeRuntimeCall(call)
      case Bad => None
      case Parsed(c, _) => Some(c)
  }

  /** `SignedExtrinsic<T>`: a signature is required. `Extrinsic<T>` takes either. */
  function ToSigned(x: EncodedExtrinsic, header: (Byte, Byte)): Option<(ExtrinsicSignature, RuntimeCall)> {
    if x.signature.None? then None
    else match FromCall(header, x.call)
      case None => None
      case Some(c) => Some((x.signature.value, c))
  }

  /** What follows a self-delimiting body is ignored, and an unsigned extrinsic is no signed one. */
  lemma LeniencyOfTypedReading(c: RuntimeCall, rest: Bytes, header: (Byte, Byte))
    ensures !Greedy(c) ==> FromCall(Header(c), ToCall(c) + rest) == Some(c)
    ensures ToSigned(EncodedExtrinsic(None, ToCall(c)), header) == None
  {
    hide DecodeRuntimeCall, EncodeBody, Header, Greedy;
    if !Greedy(c) { CallRoundTrip(c, rest); }
  }

  /**
   A signed call goes onto the wire and comes back, exactly when its inner length fits the length
   prefix; what comes back is the same signature and the same call, and no other call type's.
   */
  lemma {:induction false} SignedCallRoundTripIff(s: ExtrinsicSignature, c: RuntimeCall)
    ensures var sent := EncodedExtrinsic(Some(s), ToCall(c));
      && (DecodeExtrinsic(EncodeExtrinsic(sent)) == Some(sent) <==> |EncodeInner(Some(s), ToCall(c))| < U32_RANGE)
      && ToSigned(sent, Header(c)) == Some((s, c))
      && forall other :: other != Header(c) ==> ToSigned(sent, other) == None
  {
    hide DecodeRuntimeCall, DecodeExtrinsic, EncodeExtrinsic, EncodeInner, EncodeBody, Header;
    ExtrinsicRoundTripIff(EncodedExtrinsic(Some(s), ToCall(c)));
    CallRoundTrip(c, []);
    assert ToCall(c) + [] == ToCall(c);
  }

  // ---------------------------------------------------------------- the call inside a multisig

  datatype Timepoint = Timepoint(height: U32, index: U32)

  datatype Weight = Weight(refTime: U64, proofSize: U64)

  type Accounts = s: seq<Bytes32> | |s| < 0x1_0000_0000

  datatype AsMulti = AsMulti(threshold: U16, others: Accounts, timepoint: Option<Timepoint>, call: ExtrinsicCall,
                             maxWeight: Weight)

  function EncodeAccounts(s: seq<Bytes32>): Bytes {
    if s == [] then [] else s[0] + EncodeAccounts(s[1..])
  }

  function DecodeAccounts(b: Bytes, n: nat): (r: Parsed<seq<Bytes32>>)
    ensures r.Parsed? ==> |r.value| == n
    decreases n
  {
    if n == 0 then Parsed([], b)
    else match Take(b, 32)
      case Bad => Bad
      case Parsed(x, rest) =>
        match DecodeAccounts(rest, n - 1)
        case Bad => Bad
        case Parsed(xs, rest') => Parsed([x] + xs, rest')
  }

  function EncodeTimepoint(t: Option<Timepoint>): Bytes {
    match t
    case None => [0]
    case Some(p) => [1] + LE(p.height, 4) + LE(p.index, 4)
  }

  function DecodeTimepoint(b: Bytes): Parsed<Option<Timepoint>> {
    if b == [] then Bad
    else if b[0] == 0 then Parsed(None, b[1..])
    else if b[0] != 1 then Bad
    else match DecodeU32(b[1..])
      case Bad => Bad
      case Parsed(height, b1) =>
        match DecodeU32(b1)
        case Bad => Bad
        case Parsed(index, rest) => Parsed(Some(Timepoint(height, index)), rest)
  }

  function EncodeWeight(w: Weight): Bytes {
    Pow256Values();
    EncodeCompact(w.refTime) + EncodeCompact(w.proofSize)
  }

  function DecodeWeight(b: Bytes): Parsed<Weight> {
    match DecodeU64Compact(b)
    case Bad => Bad
    case Parsed(refTime, b1) =>
      match DecodeU64Compact(b1)
      case Bad => Bad
      case Parsed(proofSize, rest) => Parsed(Weight(refTime, proofSize), rest)
  }

  function EncodeAsMulti(m: AsMulti): Bytes {
    LE(m.threshold, 2) + (EncodeCompact(|m.others|) + EncodeAccounts(m.others))
    + EncodeTimepoint(m.timepoint) + EncodeCall(m.call) + EncodeWeight(m.maxWeight)
  }

  /** Threshold, signatories and timepoint, and what is left. */
  function DecodeMultiHead(b: Bytes): Parsed<(U16, Accounts, Option<Timepoint>)> {
    match DecodeU16(b)
    case Bad => Bad
    case Parsed(threshold, b1) =>
      match DecodeCompactU32(b1)
      case Bad => Bad
      case Parsed(n, b2) =>
        match DecodeAccounts(b2, n)
        case Bad => Bad
        case Parsed(others, b3) =>
          match DecodeTimepoint(b3)
          case Bad => Bad
          case Parsed(timepoint, rest) => Parsed((threshold, others, timepoint), rest)
  }

  /**
   `AsMulti::decode`. It decodes the inner call as a runtime call, reads the weight, prints the call
   again with `RuntimeCall::encode`, which writes the body without its header, and splits those bytes.
   */
  function DecodeAsMulti(b: Bytes): Parsed<AsMulti> {
    match DecodeMultiHead(b)
    case Bad => Bad
    case Parsed((threshold, others, timepoint), b1) =>
      match DecodeRuntimeCall(b1)
      case Bad => Bad
      case Parsed(c, b2) =>
        match DecodeWeight(b2)
        case Bad => Bad
        case Parsed(maxWeight, rest) =>
          match DecodeCall(EncodeBody(c))
          case None => Bad
          case Some(call) => Parsed(AsMulti(threshold, others, timepoint, call, maxWeight), rest)
  }

  lemma AccountsRoundTrip(s: seq<Bytes32>, rest: Bytes)
    ensures DecodeAccounts(EncodeAccounts(s) + rest, |s|) == Parsed(s, rest)
  {
    if s == [] {
      assert [] + rest == rest;
    } else {
      AccountsRoundTrip(s[1..], rest);
      Regroup(s[0], EncodeAccounts(s[1..]), rest);
      TakeRoundTrip(s[0], EncodeAccounts(s[1..]) + rest);
      assert [s[0]] + s[1..] == s;
    }
  }

  lemma TimepointRoundTrip(t: Option<Timepoint>, rest: Bytes)
    ensures DecodeTimepoint(EncodeTimepoint(t) + rest) == Parsed(t, rest)
  {
    hide DecodeU32;
    match t
    case None =>
    case Some(p) =>
      var b1 := LE(p.index, 4) + rest;
      assert EncodeTimepoint(t) + rest == [1] + (LE(p.height, 4) + b1);
      U32RoundTrip(p.height, b1);
      U32RoundTrip(p.index, rest);
  }

  lemma WeightRoundTrip(w: Weight, rest: Bytes)
    ensures DecodeWeight(EncodeWeight(w) + rest) == Parsed(w, rest)
  {
    hide DecodeU64Compact, EncodeCompact;
    Pow256Values();
    Regroup(EncodeCompact(w.refTime), EncodeCompact(w.proofSize), rest);
    TimestampRoundTrip(w.refTime, EncodeCompact(w.proofSize) + rest);
    TimestampRoundTrip(w.proofSize, rest);
  }

  lemma MultiHeadRoundTrip(m: AsMulti, rest: Bytes)
    ensures DecodeMultiHead(LE(m.threshold, 2) + (EncodeCompact(|m.others|) + EncodeAccounts(m.others))
              + EncodeTimepoint(m.timepoint) + rest)
         == Parsed((m.threshold, m.others, m.timepoint), rest)
  {
    hide DecodeU16, DecodeCompactU32, EncodeCompact, DecodeAccounts, EncodeAccounts, DecodeTimepoint, EncodeTimepoint;
    var b3 := EncodeTimepoint(m.timepoint) + rest;
    var b2 := EncodeAccounts(m.others) + b3;
    var b1 := EncodeCompact(|m.others|) + b2;
    assert LE(m.threshold, 2) + (EncodeCompact(|m.others|) + EncodeAccounts(m.others))
           + EncodeTimepoint(m.timepoint) + rest
        == LE(m.threshold, 2) + b1;
    U16RoundTrip(m.threshold, b1);
    CompactU32RoundTrip(|m.others|, b2);
    AccountsRoundTrip(m.others, b3);
    TimepointRoundTrip(m.timepoint, rest);
  }

  lemma NoWeightInNothing()
    ensures DecodeWeight([]).Bad?
  {
  }

  /**
   A multisig never gives its inner call back, whatever the call and whatever follows. A call whose body
   runs to the end swallows the weight, and decoding fails. Of any other the first two bytes of the body
   are taken for the header, and without two such bytes decoding fails too. The rest is read right.
   */
  lemma {:induction false} MultisigCallIsNeverRecovered(m: AsMulti, c: RuntimeCall, rest: Bytes)
    requires m.call == AsExtrinsicCall(c)
    ensures var p := DecodeAsMulti(EncodeAsMulti(m) + rest);
      && (p.Parsed? <==> !Greedy(c) && |EncodeBody(c)| >= 2)
      && (p.Parsed? ==>
            && p.value == m.(call := p.value.call) && p.rest == rest
            && EncodeCall(p.value.call) == EncodeBody(c) && p.value.call != AsExtrinsicCall(c))
  {
    hide DecodeMultiHead, DecodeRuntimeCall, DecodeWeight, EncodeBody, Header, EncodeCompact, EncodeAccounts,
      EncodeTimepoint, EncodeWeight, Greedy;
    var tail := EncodeWeight(m.maxWeight) + rest;
    MultiHeadRoundTrip(m, ToCall(c) + tail);
    assert EncodeCall(m.call) == ToCall(c);
    assert EncodeAsMulti(m) + rest
        == LE(m.threshold, 2) + (EncodeCompact(|m.others|) + EncodeAccounts(m.others)) + EncodeTimepoint(m.timepoint)
           + (ToCall(c) + tail);
    if Greedy(c) {
      GreedyLeavesNothing(c, tail);
      NoWeightInNothing();
    } else {
      CallRoundTrip(c, tail);
      WeightRoundTrip(m.maxWeight, rest);
      var body := EncodeBody(c);
      assert |body| >= 2 ==> body == [body[0], body[1]] + body[2..];
    }
  }
}
