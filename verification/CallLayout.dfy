/**
 Where every byte of a runtime call and of a multisig stands, with the pallet and variant ids written
 out, and the converse: whatever bytes are decoded as a call are that call's bytes.
 */
module CallLayout {
  import opened Prelude
  import opened Scale
  import opened Extrinsics
  import opened Calls
  import opened WireLayout

  /** A byte vector at the end: its length, then its bytes. */
  predicate BlobEnds(b: Bytes, at: nat, v: Blob) {
    StandsAt(b, at, EncodeCompact(|v|)) && |b| == at + |EncodeCompact(|v|)| + |v|
    && StandsAt(b, at + |EncodeCompact(|v|)|, v)
  }

  predicate ProxyTypeAt(b: Bytes, at: nat, t: ProxyType) {
    && at < |b|
    && match t
       case Any => b[at] == 0
       case NonTransfer => b[at] == 1
       case Governance => b[at] == 2
       case Staking => b[at] == 3
       case IdentityJudgement => b[at] == 4
       case NominationPools => b[at] == 5
  }

  /** A 32-bit integer, lowest byte first. */
  predicate U32At(b: Bytes, at: nat, n: U32) {
    at + 4 <= |b| && b[at] + b[at + 1] as nat * 0x100 + b[at + 2] as nat * 0x1_0000 + b[at + 3] as nat * 0x100_0000 == n
  }

  predicate U16At(b: Bytes, at: nat, n: U16) {
    at + 2 <= |b| && b[at] + b[at + 1] as nat * 0x100 == n
  }

  /** The ids of every call and the fields of its body, up to the end. */
  predicate CallLaidOut(b: Bytes, c: RuntimeCall) {
    && |b| >= 2
    && match c
       case SystemRemark(v) => b[..2] == [0, 0] && BlobEnds(b, 2, v)
       case UtilityBatch(n, calls) => b == [1, 0] + EncodeCompact(n) + calls
       case UtilityBatchAll(n, calls) => b == [1, 2] + EncodeCompact(n) + calls
       case UtilityForceBatch(n, calls) => b == [1, 4] + EncodeCompact(n) + calls
       case TimestampSet(now) => b == [3, 0] + EncodeCompact(now)
       case BalancesTransferKeepAlive(dest, value) =>
         && b[..2] == [6, 3] && AddressAt(b, 2, dest) && |b| == 2 + AddressWidth(dest) + |EncodeCompact(value)|
         && StandsAt(b, 2 + AddressWidth(dest), EncodeCompact(value))
       case BalancesTransferAll(dest, keepAlive) =>
         && b[..2] == [6, 4] && AddressAt(b, 2, dest) && |b| == 2 + AddressWidth(dest) + 1
         && b[|b| - 1] == if keepAlive then 1 else 0
       case StakingChill => b == [10, 6]
       case SessionPurgeKeys => b == [11, 1]
       case DataAvailabilityCreateApplicationKey(v) => b[..2] == [29, 0] && BlobEnds(b, 2, v)
       case DataAvailabilitySubmitData(v) => b[..2] == [29, 1] && BlobEnds(b, 2, v)
       case ProxyProxy(id, t, call) =>
         && b[..2] == [40, 0] && AddressAt(b, 2, id)
         && var at := 2 + AddressWidth(id);
         && at < |b|
         && (match t
             case None => b[at] == 0 && b[at + 1..] == [call.palletId, call.variantId] + call.data
             case Some(p) =>
               && b[at] == 1 && ProxyTypeAt(b, at + 1, p)
               && b[at + 2..] == [call.palletId, call.variantId] + call.data)
       case ProxyAddProxy(id, t, delay) =>
         && b[..2] == [40, 1] && AddressAt(b, 2, id)
         && var at := 2 + AddressWidth(id);
         && ProxyTypeAt(b, at, t) && U32At(b, at + 1, delay) && |b| == at + 5
       case ProxyCreatePure(t, delay, index) =>
         && b[..2] == [40, 4] && |b| == 9 && ProxyTypeAt(b, 2, t) && U32At(b, 3, delay) && U16At(b, 7, index)
  }

  lemma BlobIsLaidOut(before: Bytes, v: Blob)
    ensures BlobEnds(before + EncodeBlob(v), |before|, v)
  {
    hide EncodeCompact;
    assert before + EncodeBlob(v) == before + EncodeCompact(|v|) + v;
  }

  lemma AddressFollows(before: Bytes, a: MultiAddress, rest: Bytes)
    ensures var b := before + (EncodeAddress(a) + rest);
      AddressAt(b, |before|, a) && |b| == |before| + AddressWidth(a) + |rest| && b[|before| + AddressWidth(a)..] == rest
  {
    hide AddressAt, EncodeAddress;
    AddressIsLaidOut(before, a, rest);
    assert before + (EncodeAddress(a) + rest) == before + EncodeAddress(a) + rest;
  }

  lemma U32IsLaidOut(before: Bytes, n: U32, rest: Bytes)
    ensures U32At(before + LE(n, 4) + rest, |before|, n)
  {
    ShortLayout(n);
    var b, x := before + LE(n, 4) + rest, LE(n, 4);
    assert forall i :: 0 <= i < 4 ==> b[|before| + i] == x[i];
  }

  lemma U16IsLaidOut(before: Bytes, n: U16, rest: Bytes)
    ensures U16At(before + LE(n, 2) + rest, |before|, n)
  {
    ShortLayout(n);
    var b, x := before + LE(n, 2) + rest, LE(n, 2);
    assert forall i :: 0 <= i < 2 ==> b[|before| + i] == x[i];
  }

  lemma BalancesAreLaidOut(c: RuntimeCall)
    requires c.BalancesTransferKeepAlive? || c.BalancesTransferAll?
    ensures CallLaidOut(ToCall(c), c)
  {
    hide EncodeCompact, EncodeAddress, AddressAt, AddressWidth;
    if c.BalancesTransferKeepAlive? {
      AddressFollows([6, 3], c.dest, EncodeCompact(c.value));
    } else {
      AddressFollows([6, 4], c.to, [if c.keepAlive then 1 else 0]);
    }
  }

  lemma ProxyIsLaidOut(c: RuntimeCall)
    requires c.ProxyProxy?
    ensures CallLaidOut(ToCall(c), c)
  {
    hide EncodeAddress, AddressAt, AddressWidth;
    var call := EncodeCall(c.call);
    var rest := EncodeMaybeProxyType(c.forceProxyType) + call;
    AddressFollows([40, 0], c.id, rest);
    assert ToCall(c) == [40, 0] + (EncodeAddress(c.id) + rest);
    var at := 2 + AddressWidth(c.id);
    assert ToCall(c)[at..] == rest;
    if c.forceProxyType.Some? {
      assert ToCall(c)[at..][0] == 1 && ToCall(c)[at..][1] == ProxyTag(c.forceProxyType.value);
      assert ToCall(c)[at + 2..] == rest[2..] == call;
    } else {
      assert ToCall(c)[at..][0] == 0;
      assert ToCall(c)[at + 1..] == rest[1..] == call;
    }
  }

  lemma AddProxyIsLaidOut(c: RuntimeCall)
    requires c.ProxyAddProxy?
    ensures CallLaidOut(ToCall(c), c)
  {
    hide EncodeAddress, AddressAt, AddressWidth, LE, U32At;
    var rest := [ProxyTag(c.proxyType)] + LE(c.delay, 4);
    AddressFollows([40, 1], c.delegate, rest);
    assert ToCall(c) == [40, 1] + (EncodeAddress(c.delegate) + rest);
    var at := 2 + AddressWidth(c.delegate);
    assert ToCall(c)[at..][0] == ProxyTag(c.proxyType);
    U32IsLaidOut(ToCall(c)[..at + 1], c.delay, []);
    assert ToCall(c) == ToCall(c)[..at + 1] + ToCall(c)[at..][1..];
    assert ToCall(c) == ToCall(c)[..at + 1] + LE(c.delay, 4) + [];
  }

  lemma CreatePureIsLaidOut(c: RuntimeCall)
    requires c.ProxyCreatePure?
    ensures CallLaidOut(ToCall(c), c)
  {
    hide LE, U32At, U16At;
    var before := [40, 4, ProxyTag(c.pureType)];
    U32IsLaidOut(before, c.pureDelay, LE(c.index, 2));
    U16IsLaidOut(before + LE(c.pureDelay, 4), c.index, []);
    assert ToCall(c) == before + LE(c.pureDelay, 4) + LE(c.index, 2);
    assert ToCall(c) == before + LE(c.pureDelay, 4) + LE(c.index, 2) + [];
  }

  /** Every byte of a call is where the layout has it. */
  lemma {:induction false} CallIsLaidOut(c: RuntimeCall)
    ensures CallLaidOut(ToCall(c), c)
  {
    hide EncodeCompact, EncodeBlob, BlobEnds;
    match c
    case SystemRemark(v) => BlobIsLaidOut([0, 0], v);
    case UtilityBatch(n, calls) => assert ToCall(c) == [1, 0] + EncodeCompact(n) + calls;
    case UtilityBatchAll(n, calls) => assert ToCall(c) == [1, 2] + EncodeCompact(n) + calls;
    case UtilityForceBatch(n, calls) => assert ToCall(c) == [1, 4] + EncodeCompact(n) + calls;
    case TimestampSet(_) =>
    case BalancesTransferKeepAlive(_, _) => BalancesAreLaidOut(c);
    case BalancesTransferAll(_, _) => BalancesAreLaidOut(c);
    case StakingChill =>
    case SessionPurgeKeys =>
    case DataAvailabilityCreateApplicationKey(v) => BlobIsLaidOut([29, 0], v);
    case DataAvailabilitySubmitData(v) => BlobIsLaidOut([29, 1], v);
    case ProxyProxy(_, _, _) => ProxyIsLaidOut(c);
    case ProxyAddProxy(_, _, _) => AddProxyIsLaidOut(c);
    case ProxyCreatePure(_, _, _) => CreatePureIsLaidOut(c);
  }

  // ---------------------------------------------------------------- what is decoded is what was there

  lemma ProxyTypeCanonical(b: Bytes)
    requires DecodeProxyType(b).Parsed?
    ensures var p := DecodeProxyType(b); b == [ProxyTag(p.value)] + p.rest
  {
  }

  lemma MaybeProxyTypeCanonical(b: Bytes)
    requires DecodeMaybeProxyType(b).Parsed?
    ensures var p := DecodeMaybeProxyType(b); b == EncodeMaybeProxyType(p.value) + p.rest
  {
    if b[0] == 1 {
      ProxyTypeCanonical(b[1..]);
      assert b == [1] + b[1..];
    }
  }

  lemma U64CompactCanonical(b: Bytes)
    requires DecodeU64Compact(b).Parsed?
    ensures var p := DecodeU64Compact(b); b == EncodeCompact(p.value) + p.rest
  {
    CompactCanonical(b, 8);
  }

  lemma TransferCanonical(b: Bytes, keepAlive: bool)
    requires (if keepAlive then DecodeTransferKeepAlive(b) else DecodeTransferAll(b)).Parsed?
    ensures var p := if keepAlive then DecodeTransferKeepAlive(b) else DecodeTransferAll(b);
      b == EncodeBody(p.value) + p.rest
  {
    hide EncodeCompact, EncodeAddress, DecodeAddress, DecodeCompactU128;
    AddressCanonical(b);
    var b1 := DecodeAddress(b).rest;
    if keepAlive {
      CompactU128Canonical(b1);
    } else {
      assert b1 == [b1[0]] + b1[1..];
    }
  }

  lemma ProxyCanonical(b: Bytes)
    requires DecodeProxy(b).Parsed?
    ensures var p := DecodeProxy(b); b == EncodeBody(p.value) + p.rest && p.rest == []
  {
    hide EncodeAddress, DecodeAddress, DecodeMaybeProxyType, EncodeMaybeProxyType;
    AddressCanonical(b);
    var b1 := DecodeAddress(b).rest;
    MaybeProxyTypeCanonical(b1);
    var b2 := DecodeMaybeProxyType(b1).rest;
    assert b2 == [b2[0], b2[1]] + b2[2..];
  }

  lemma AddProxyCanonical(b: Bytes)
    requires DecodeAddProxy(b).Parsed?
    ensures var p := DecodeAddProxy(b); b == EncodeBody(p.value) + p.rest
  {
    hide EncodeAddress, DecodeAddress, DecodeProxyType, ProxyTag, LE, DecodeLE;
    AddressCanonical(b);
    var b1 := DecodeAddress(b).rest;
    ProxyTypeCanonical(b1);
    IntCanonical(DecodeProxyType(b1).rest, 4);
  }

  lemma CreatePureCanonical(b: Bytes)
    requires DecodeCreatePure(b).Parsed?
    ensures var p := DecodeCreatePure(b); b == EncodeBody(p.value) + p.rest
  {
    hide DecodeProxyType, ProxyTag, LE, DecodeLE;
    ProxyTypeCanonical(b);
    var b1 := DecodeProxyType(b).rest;
    IntCanonical(b1, 4);
    IntCanonical(DecodeLE(b1, 4).rest, 2);
  }

  lemma BodyCanonical(header: (Byte, Byte), b: Bytes)
    requires DecodeBody(header, b).Parsed?
    ensures var p := DecodeBody(header, b);
      Header(p.value) == header && b == EncodeBody(p.value) + p.rest && (Greedy(p.value) ==> p.rest == [])
  {
    hide EncodeCompact, EncodeBlob, DecodeBlob, DecodeU64Compact, DecodeTransferKeepAlive, DecodeTransferAll,
      DecodeProxy, DecodeAddProxy, DecodeCreatePure, DecodeCompactU32, EncodeAddress, EncodeMaybeProxyType,
      ProxyTag, LE;
    var p := DecodeBody(header, b);
    KindOfBody(header, b);
    match p.value
    case SystemRemark(_) => BlobCanonical(b);
    case UtilityBatch(_, _) => CompactU32Canonical(b);
    case UtilityBatchAll(_, _) => CompactU32Canonical(b);
    case UtilityForceBatch(_, _) => CompactU32Canonical(b);
    case TimestampSet(_) => U64CompactCanonical(b);
    case BalancesTransferKeepAlive(_, _) => TransferCanonical(b, true);
    case BalancesTransferAll(_, _) => TransferCanonical(b, false);
    case StakingChill => assert [] + b == b;
    case SessionPurgeKeys => assert [] + b == b;
    case DataAvailabilityCreateApplicationKey(_) => BlobCanonical(b);
    case DataAvailabilitySubmitData(_) => BlobCanonical(b);
    case ProxyProxy(_, _, _) => ProxyCanonical(b);
    case ProxyAddProxy(_, _, _) => AddProxyCanonical(b);
    case ProxyCreatePure(_, _, _) => CreatePureCanonical(b);
  }

  /** The header decides the variant. */
  lemma KindOfBody(header: (Byte, Byte), b: Bytes)
    requires DecodeBody(header, b).Parsed?
    ensures Header(DecodeBody(header, b).value) == header
  {
  }

  /** Whatever is decoded as a call is that call's bytes, with what is left after them. */
  lemma {:induction false} DecodedCallIsItsBytes(b: Bytes)
    requires DecodeRuntimeCall(b).Parsed?
    ensures var p := DecodeRuntimeCall(b);
      && b == ToCall(p.value) + p.rest && CallLaidOut(ToCall(p.value), p.value)
      && (Greedy(p.value) ==> p.rest == [])
  {
    hide DecodeBody, EncodeBody, Header, Greedy, CallLaidOut;
    BodyCanonical((b[0], b[1]), b[2..]);
    var p := DecodeRuntimeCall(b);
    CallIsLaidOut(p.value);
    assert b == [b[0], b[1]] + b[2..];
  }

  /** Calls decoded one after the other are those calls' bytes, and only the last runs to the end. */
  lemma {:induction false} DecodedManyIsWire(b: Bytes, n: nat)
    requires DecodeMany(b, n).Parsed?
    ensures var p := DecodeMany(b, n); b == Wire(p.value) + p.rest && OnlyLastGreedy(p.value)
    decreases n
  {
    hide DecodeRuntimeCall, ToCall, Greedy, CallLaidOut;
    if n == 0 {
      assert [] + b == b;
    } else {
      DecodedCallIsItsBytes(b);
      var c, rest := DecodeRuntimeCall(b).value, DecodeRuntimeCall(b).rest;
      DecodedManyIsWire(rest, n - 1);
      var tail := DecodeMany(rest, n - 1);
      NothingLeftIsBad();
      assert ([c] + tail.value)[1..] == tail.value;
      assert forall i :: 0 <= i < |tail.value| ==> ([c] + tail.value)[i + 1] == tail.value[i];
    }
  }

  /**
   What a batch's length and bytes decode to: for length zero no calls, whatever the bytes; else exactly the
   calls, as many as the length says, whose bytes in order they are, if only the last runs to the end.
   */
  lemma {:induction false} DecodedCallsIff(length: U32, calls: Bytes, cs: seq<RuntimeCall>)
    ensures DecodedCalls(length, calls) == Some(cs) <==>
      if length == 0 then cs == [] else |cs| == length && OnlyLastGreedy(cs) && calls == Wire(cs)
  {
    hide OnlyLastGreedy, Wire;
    if length > 0 {
      if DecodedCalls(length, calls) == Some(cs) {
        DecodedManyIsWire(calls, length);
        assert Wire(cs) + [] == Wire(cs);
      }
      if |cs| == length && OnlyLastGreedy(cs) && calls == Wire(cs) { DecodeManyOfWire(cs); }
    }
  }

  // ---------------------------------------------------------------- multisigs

  function TimepointWidth(t: Option<Timepoint>): nat { if t.None? then 1 else 9 }

  /** Threshold, signatories with their number in front, timepoint, call and weight. */
  predicate MultiLaidOut(b: Bytes, m: AsMulti) {
    var othersAt := 2 + |EncodeCompact(|m.others|)|;
    var timeAt := othersAt + 32 * |m.others|;
    var callAt := timeAt + TimepointWidth(m.timepoint);
    var weightAt := callAt + 2 + |m.call.data|;
    var refTime, proofSize := EncodeCompact(m.maxWeight.refTime), EncodeCompact(m.maxWeight.proofSize);
    && |b| == weightAt + |refTime| + |proofSize|
    && U16At(b, 0, m.threshold) && StandsAt(b, 2, EncodeCompact(|m.others|))
    && (forall i :: 0 <= i < |m.others| ==> StandsAt(b, othersAt + 32 * i, m.others[i]))
    && (match m.timepoint
        case None => b[timeAt] == 0
        case Some(t) => b[timeAt] == 1 && U32At(b, timeAt + 1, t.height) && U32At(b, timeAt + 5, t.index))
    && StandsAt(b, callAt, [m.call.palletId, m.call.variantId] + m.call.data)
    && StandsAt(b, weightAt, refTime) && StandsAt(b, weightAt + |refTime|, proofSize)
  }

  lemma AccountsAreLaidOut(before: Bytes, s: seq<Bytes32>, rest: Bytes)
    ensures |EncodeAccounts(s)| == 32 * |s|
    ensures forall i :: 0 <= i < |s| ==> StandsAt(before + EncodeAccounts(s) + rest, |before| + 32 * i, s[i])
    decreases s
  {
    hide StandsAt;
    if s == [] {
    } else {
      var tail := EncodeAccounts(s[1..]);
      AccountsAreLaidOut(before + s[0], s[1..], rest);
      assert EncodeAccounts(s) == s[0] + tail;
      hide EncodeAccounts;
      assert before + EncodeAccounts(s) + rest == before + s[0] + tail + rest;
      assert before + EncodeAccounts(s) + rest == before + s[0] + (tail + rest);
      StandsAfter(before, s[0], tail + rest);
      forall i | 0 <= i < |s|
        ensures StandsAt(before + EncodeAccounts(s) + rest, |before| + 32 * i, s[i])
      {
        if i > 0 {
          assert s[i] == s[1..][i - 1] && |before + s[0]| + 32 * (i - 1) == |before| + 32 * i;
        }
      }
    }
  }

  lemma TimepointIsLaidOut(before: Bytes, t: Option<Timepoint>, rest: Bytes)
    ensures var b := before + EncodeTimepoint(t) + rest;
      && |EncodeTimepoint(t)| == TimepointWidth(t)
      && (match t
          case None => b[|before|] == 0
          case Some(p) => b[|before|] == 1 && U32At(b, |before| + 1, p.height) && U32At(b, |before| + 5, p.index))
  {
    hide U32At, LE;
    var b := before + EncodeTimepoint(t) + rest;
    if t.Some? {
      var p := t.value;
      U32IsLaidOut(before + [1], p.height, LE(p.index, 4) + rest);
      assert b == (before + [1]) + LE(p.height, 4) + (LE(p.index, 4) + rest);
      U32IsLaidOut(before + [1] + LE(p.height, 4), p.index, rest);
      assert b == (before + [1] + LE(p.height, 4)) + LE(p.index, 4) + rest;
    }
  }

  /** Every byte of a multisig is where the layout has it. */
  lemma {:induction false} MultiIsLaidOut(m: AsMulti)
    ensures MultiLaidOut(EncodeAsMulti(m), m)
  {
    hide EncodeCompact, EncodeAccounts, EncodeTimepoint, LE, U16At, U32At, StandsAt;
    Pow256Values();
    var b := EncodeAsMulti(m);
    var threshold, count := LE(m.threshold, 2), EncodeCompact(|m.others|);
    var others, time, call := EncodeAccounts(m.others), EncodeTimepoint(m.timepoint), EncodeCall(m.call);
    var refTime, proofSize := EncodeCompact(m.maxWeight.refTime), EncodeCompact(m.maxWeight.proofSize);
    var afterTime := call + refTime + proofSize;
    assert b == [] + threshold + (count + others + time + afterTime);
    U16IsLaidOut([], m.threshold, count + others + time + afterTime);
    assert b == threshold + count + (others + time + afterTime);
    StandsAfter(threshold, count, others + time + afterTime);
    assert b == (threshold + count) + others + (time + afterTime);
    AccountsAreLaidOut(threshold + count, m.others, time + afterTime);
    assert b == (threshold + count + others) + time + afterTime;
    TimepointIsLaidOut(threshold + count + others, m.timepoint, afterTime);
    assert b == (threshold + count + others + time) + call + (refTime + proofSize);
    StandsAfter(threshold + count + others + time, call, refTime + proofSize);
    assert b == (threshold + count + others + time + call) + refTime + proofSize;
    StandsAfter(threshold + count + others + time + call, refTime, proofSize);
    assert b == (threshold + count + others + time + call + refTime) + proofSize + [];
    StandsAfter(threshold + count + others + time + call + refTime, proofSize, []);
  }
}
