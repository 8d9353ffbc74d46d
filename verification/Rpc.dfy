/**
 The node behind the RPC endpoint, as an environment that answers as it pleases.

 A `run` lists what the node would say at each successive instant. Every RPC consumes one
 instant, so between any two calls the chain may have grown, the best chain may have been
 reorganised, or the call may fail. Once the run is over every call fails.
 */
module Rpc {
  import opened Prelude

  // A 256-bit block hash; only equality is ever used.
  type Hash = nat

  datatype BlockInfo = BlockInfo(hash: Hash, height: U32)

  // Both chains are indexed by height and start at the genesis block.
  datatype Moment = Moment(up: bool, finalized: seq<Hash>, best: seq<Hash>)

  /** Heights fit a u32 with room for "the next height". */
  ghost predicate Sane(run: seq<Moment>) {
    forall i :: 0 <= i < |run| ==>
      && 0 < |run[i].finalized| < U32_RANGE
      && 0 < |run[i].best| < U32_RANGE
  }

  /** Finalisation only appends, and the best chain never leaves the finalised one. */
  ghost predicate AppendOnly(run: seq<Moment>) {
    && (forall i, j :: 0 <= i <= j < |run| ==> run[i].finalized <= run[j].finalized)
    && (forall i :: 0 <= i < |run| ==> run[i].finalized <= run[i].best)
  }

  /** The best chain never reorganises either. */
  ghost predicate ForkFree(run: seq<Moment>) {
    && AppendOnly(run)
    && (forall i, j :: 0 <= i <= j < |run| ==> run[i].best <= run[j].best)
  }

  ghost predicate Up(run: seq<Moment>, t: nat) { t < |run| && run[t].up }

  /** Every RPC asked in [from, to) was answered. */
  ghost predicate Answered(run: seq<Moment>, from: nat, to: nat) {
    forall t :: from <= t < to ==> Up(run, t)
  }

  /** A call that asked in [from, to): it goes on as long as it is answered, and fails when the last RPC does. */
  ghost predicate Asked(run: seq<Moment>, from: nat, to: nat, ok: bool) {
    from < to && Answered(run, from, to - 1) && (ok <==> Up(run, to - 1))
  }

  /** Throughout [from, to) the finalised chain stopped short of `height`. */
  ghost predicate Pending(run: seq<Moment>, from: nat, to: int, height: int) {
    forall t: nat :: from <= t < to && t < |run| ==> |run[t].finalized| <= height
  }

  /** The finalised chain as it stood at the last instant before `t`. */
  ghost function FinalizedBy(run: seq<Moment>, t: nat): seq<Hash> {
    var n := Min(t, |run|);
    if n == 0 then [] else run[n - 1].finalized
  }

  /** The finalised chain at the end of the run: every earlier one is a prefix of it. */
  ghost function Chain(run: seq<Moment>): seq<Hash> { FinalizedBy(run, |run|) }

  /** On a fork-free run, the chain every best chain is a prefix of. */
  ghost function BestChain(run: seq<Moment>): seq<Hash> {
    if |run| == 0 then [] else run[|run| - 1].best
  }

  /** `info` was on the best chain at some instant of [from, to). */
  ghost predicate SeenOnBest(run: seq<Moment>, from: nat, to: nat, info: BlockInfo) {
    exists t :: from <= t < to && Up(run, t) && info.height < |run[t].best| && run[t].best[info.height] == info.hash
  }

  /** The head stood at `height` at an instant that answered. */
  ghost predicate HeadAt(run: seq<Moment>, t: nat, best: bool, height: U32) {
    Up(run, t) && height == HeadOf(run[t], best) - 1
  }

  /** `height` was the height of the head at some instant of [from, to). */
  ghost predicate SeenAsHead(run: seq<Moment>, from: nat, to: nat, best: bool, height: U32) {
    exists t :: from <= t < to && HeadAt(run, t, best, height)
  }

  ghost function HeadOf(m: Moment, best: bool): nat { if best then |m.best| else |m.finalized| }

  lemma FinalizedGrows(run: seq<Moment>, s: nat, t: nat)
    requires AppendOnly(run) && s <= t
    ensures FinalizedBy(run, s) <= FinalizedBy(run, t) <= Chain(run)
  {
  }

  lemma HeightsFit(run: seq<Moment>, t: nat)
    requires Sane(run)
    ensures |FinalizedBy(run, t)| < U32_RANGE
  {
  }

  /** Below the finalised height the best chain is the finalised one. */
  lemma BestBelowFinality(run: seq<Moment>, t: nat, height: nat)
    requires AppendOnly(run) && Up(run, t) && height < |FinalizedBy(run, t)|
    ensures height < |FinalizedBy(run, t + 1)| && height < |run[t].best|
    ensures FinalizedBy(run, t + 1)[height] == run[t].best[height]
  {
    FinalizedGrows(run, t, t + 1);
  }

  /** A height once seen as the finalised head's is finalised from then on. */
  lemma SeenIsFinalized(run: seq<Moment>, t: nat, height: U32)
    requires AppendOnly(run) && SeenAsHead(run, 0, t, false, height)
    ensures height < |FinalizedBy(run, t)|
  {
    var s :| 0 <= s < t && HeadAt(run, s, false, height);
    FinalizedGrows(run, s + 1, t);
  }

  /** Between `from` and `mid` nothing was asked, or one RPC that was answered. */
  ghost predicate Reached(run: seq<Moment>, from: nat, mid: nat) {
    from == mid || (mid == from + 1 && Up(run, from))
  }

  /** A single RPC waits for nothing. */
  lemma AskedOnce(run: seq<Moment>, t: nat, height: int)
    ensures Asked(run, t, t + 1, Up(run, t)) && Pending(run, t, t - 1, height) && Pending(run, t, t - 2, height)
  {
  }

  /** A wait that began with at most one other RPC. */
  lemma AskedAfter(run: seq<Moment>, from: nat, mid: nat, to: nat, height: int, ok: bool)
    requires AppendOnly(run) && Reached(run, from, mid)
    requires Asked(run, mid, to, ok) && Pending(run, mid, to - 2, height)
    ensures Asked(run, from, to, ok) && Pending(run, from, to - 3, height)
  {
    if mid < to - 2 { assert Up(run, mid) && |run[mid].finalized| <= height; }
  }

  class Node {
    const run: seq<Moment>
    var now: nat

    constructor (run: seq<Moment>)
      ensures this.run == run && now == 0
    {
      this.run := run;
      now := 0;
    }

    /** One RPC: the instant that answers it, or None when the call fails. */
    method Ask() returns (m: Option<Moment>)
      modifies this
      ensures now == old(now) + 1
      ensures m == if Up(run, old(now)) then Some(run[old(now)]) else None
    {
      m := if now < |run| && run[now].up then Some(run[now]) else None;
      now := now + 1;
    }

    /** `finalized().block_info()` or `best().block_info()`: the head of that chain. */
    method HeadInfo(best: bool) returns (r: Result<BlockInfo>)
      requires Sane(run)
      modifies this
      ensures now == old(now) + 1
      ensures r.Ok? <==> Up(run, old(now))
      ensures r.Ok? ==>
        var chain := if best then run[old(now)].best else run[old(now)].finalized;
        r.value == BlockInfo(chain[|chain| - 1], |chain| - 1)
    {
      var m := Ask();
      if m.None? { return Err(RpcFailed); }
      var chain := if best then m.value.best else m.value.finalized;
      r := Ok(BlockInfo(chain[|chain| - 1], |chain| - 1));
    }

    /** `chain().block_hash(Some(height))`: the hash at that height of the best chain. */
    method BlockHash(height: U32) returns (r: Result<Option<Hash>>)
      modifies this
      ensures now == old(now) + 1
      ensures r.Ok? <==> Up(run, old(now))
      ensures r.Ok? ==>
        var chain := run[old(now)].best;
        r.value == if height < |chain| then Some(chain[height]) else None
    {
      var m := Ask();
      if m.None? { return Err(RpcFailed); }
      r := Ok(if height < |m.value.best| then Some(m.value.best[height]) else None);
    }

    /** An RPC about the block with a given hash: `known` is what the node holds under each hash. */
    method Query<T>(hash: Hash, known: map<Hash, T>) returns (r: Result<Option<T>>)
      modifies this
      ensures now == old(now) + 1
      ensures r == if Up(run, old(now)) then Ok(Lookup(known, hash)) else Err(RpcFailed)
    {
      var m := Ask();
      r := if m.None? then Err(RpcFailed) else Ok(Lookup(known, hash));
    }

    /** The same for the block at a height of the best chain as it stands when asked. */
    method QueryAt<T>(height: U32, known: map<Hash, T>) returns (r: Result<Option<T>>)
      modifies this
      ensures now == old(now) + 1
      ensures !Up(run, old(now)) ==> r.Err?
      ensures Up(run, old(now)) ==>
        var chain := run[old(now)].best;
        r == if height < |chain| then Ok(Lookup(known, chain[height])) else Err(ExpectedData)
    {
      var m := Ask();
      if m.None? { return Err(RpcFailed); }
      r := if height < |m.value.best| then Ok(Lookup(known, m.value.best[height])) else Err(ExpectedData);
    }
  }

  function Lookup<T>(known: map<Hash, T>, hash: Hash): Option<T> {
    if hash in known then Some(known[hash]) else None
  }
}
