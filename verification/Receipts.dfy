/**
 Locating a submitted transaction: by scanning a range of blocks, or by watching the account's
 nonce from the block the transaction's mortality starts at.
 */
module Receipts {
  import opened Prelude
  import opened Rpc
  import opened Subscription

  type Account = nat

  datatype Tx = Tx(hash: Hash, signer: Option<Account>, nonce: U32)

  datatype Receipt = Receipt(blockHash: Hash, blockHeight: U32, extHash: Hash, extIndex: nat)

  function Txs(body: map<Hash, seq<Tx>>, block: Hash): seq<Tx> {
    Lookup(body, block).GetOr([])
  }

  /** The account's nonce in a block's state; an account not in it has nonce 0. */
  function NonceAt(nonces: map<Hash, U32>, block: Hash): U32 {
    Lookup(nonces, block).GetOr(0)
  }

  /** The first extrinsic the node lists under a hash filter. */
  function FirstWith(txs: seq<Tx>, hash: Hash): (r: Option<nat>)
    ensures r.Some? ==> r.value < |txs| && txs[r.value].hash == hash
    ensures forall i :: 0 <= i < (if r.Some? then r.value else |txs|) ==> txs[i].hash != hash
  {
    if txs == [] then None
    else if txs[0].hash == hash then Some(0)
    else
      var rest := FirstWith(txs[1..], hash);
      if rest.Some? then Some(rest.value + 1) else None
  }

  /** The blocks that hold the transaction. */
  ghost function Holds(body: map<Hash, seq<Tx>>, txHash: Hash): iset<Hash> {
    iset block: Hash | FirstWith(Txs(body, block), txHash).Some?
  }

  /** The chain reaches `to`, and no block of [from, to) satisfies `hit`. */
  ghost predicate NoneHit(chain: seq<Hash>, hit: iset<Hash>, from: nat, to: nat) {
    (from < to ==> to <= |chain|) && forall h :: from <= h < to ==> chain[h] !in hit
  }

  /** `info` is the first block from `from` on that satisfies `hit`. */
  ghost predicate FirstHit(chain: seq<Hash>, hit: iset<Hash>, from: nat, info: BlockInfo) {
    && from <= info.height < |chain| && info.hash == chain[info.height]
    && info.hash in hit && NoneHit(chain, hit, from, info.height)
  }

  // ---------------------------------------------------------------- one look after the other

  /**
   One turn of a search: when it began and ended, the subscription before and after, what that
   delivered and until when, and what the search made of it.
   */
  datatype Look<+A> = Look(from: nat, to: nat, before: SubView, after: SubView,
                           info: Result<BlockInfo>, until: nat, answer: Result<(BlockInfo, A)>)

  /** Each look begins where the one before ended. */
  ghost predicate Chained<A>(looks: seq<Look<A>>, from: nat, to: nat, before: SubView, after: SubView) {
    if looks == [] then from == to && before == after
    else
      var last := looks[|looks| - 1];
      last.to == to && last.after == after && Chained(looks[..|looks| - 1], from, last.from, before, last.before)
  }

  lemma ChainedAppend<A>(looks: seq<Look<A>>, look: Look<A>, from: nat, before: SubView)
    requires Chained(looks, from, look.from, before, look.before)
    ensures Chained(looks + [look], from, look.to, before, look.after)
  {
    assert (looks + [look])[..|looks|] == looks;
  }

  // ---------------------------------------------------------------- scanning a range

  /** In finalised mode the subscription stands at height `next`. */
  ghost predicate StandsAt(v: SubView, next: nat) { v.AtCursor? && v.cursor.at == next }

  /** At most `budget` RPCs once the finalised chain has reached `height`; answered unless the last RPC was not. */
  ghost predicate Paced(run: seq<Moment>, from: nat, to: nat, budget: nat, height: int, ok: bool) {
    Asked(run, from, to, ok) && Pending(run, from, to - budget, height)
  }

  /** One more RPC than before, asked only if those before were answered. */
  lemma PacedOneMore(run: seq<Moment>, from: nat, mid: nat, budget: nat, height: int, to: nat, ok: bool)
    requires Paced(run, from, mid, budget, height, true) && to == mid + 1 && (ok <==> Up(run, mid))
    ensures Paced(run, from, to, budget + 1, height, ok)
  {
  }

  lemma PacedAnyway(run: seq<Moment>, from: nat, to: nat, budget: nat, more: nat, height: int, ok: bool)
    requires Paced(run, from, to, budget, height, ok) && budget <= more
    ensures Paced(run, from, to, more, height, ok)
  {
  }

  /** Everything was answered up to `to`, with at most `budget` RPCs since the finalised chain reached `height`. */
  ghost predicate OnPace(run: seq<Moment>, from: nat, to: nat, budget: nat, height: int) {
    Answered(run, from, to) && Pending(run, from, to - budget, height)
  }

  /** The wait for one more height, after those before. */
  lemma PacedNext(run: seq<Moment>, from: nat, mid: nat, to: nat, budget: nat, more: nat, height: int, ok: bool)
    requires AppendOnly(run) && from <= mid
    requires OnPace(run, from, mid, budget, height - 1) && Paced(run, mid, to, more, height, ok) && 1 <= more
    ensures Paced(run, from, to, budget + more, height, ok) && (ok ==> OnPace(run, from, to, budget + more, height))
  {
    if mid < to - more { assert Up(run, mid) && |run[mid].finalized| <= height; }
  }

  /** The finalised chain reaches `height`, and the RPCs up to `budget` instants after that are answered. */
  ghost predicate Available(run: seq<Moment>, from: nat, budget: nat, height: nat) {
    exists t: nat :: from <= t < |run| && height < |run[t].finalized| && Answered(run, from, t + budget)
  }

  /**
   A search from `start` upwards that has inspected some heights, all but the last without a hit, at the
   given pace.
   */
  ghost predicate Searched(run: seq<Moment>, from: nat, to: nat, hit: iset<Hash>, start: nat, inspections: nat,
                           budget: nat, ok: bool)
  {
    && 1 <= inspections && NoneHit(Chain(run), hit, start, start + inspections - 1)
    && Paced(run, from, to, budget, start + inspections - 1, ok)
  }

  /** A search never goes past a hit, and is answered once the hit is finalised and the RPCs it takes are answered. */
  lemma HitIsReached(run: seq<Moment>, from: nat, to: nat, hit: iset<Hash>, start: nat, inspections: nat,
                     each: nat, extra: nat, ok: bool, info: BlockInfo)
    requires Searched(run, from, to, hit, start, inspections, each * inspections + extra, ok)
    requires FirstHit(Chain(run), hit, start, info)
    requires Available(run, from, each * (info.height - start + 1) + extra, info.height)
    ensures ok
  {
    hide Paced, Available;
    assert inspections <= info.height - start + 1;
    var k := info.height - start + 1;
    assert each * inspections <= each * k by { MulMonotone(inspections, k, each); }
    AvailableIsAnswered(run, from, to, each * inspections + extra, start + inspections - 1, ok,
                        each * k + extra, info.height);
  }

  /** What keeps such a pace gets its answer. */
  lemma AvailableIsAnswered(run: seq<Moment>, from: nat, to: nat, budget: nat, height: nat, ok: bool,
                            enough: nat, last: nat)
    requires Paced(run, from, to, budget, height, ok)
    requires Available(run, from, enough, last) && budget <= enough && height <= last
    ensures ok
  {
  }

  /** `sub.Next()`, with what the searches need of it: in finalised mode the block at `next`. */
  method NextBlock(sub: Sub, ghost next: nat) returns (r: Result<BlockInfo>)
    requires sub.Valid() && (!sub.IsBest() ==> StandsAt(sub.View(), next))
    modifies sub.Footprint()
    ensures sub.Valid() && fresh(sub.Footprint() - old(sub.Footprint())) && sub.IsBest() == old(sub.IsBest())
    ensures old(sub.node.now) < sub.node.now
    ensures SubStep(sub.node.run, old(sub.node.now), sub.node.now, false, old(sub.View()), r, sub.View())
    ensures r.Ok? && !sub.IsBest() ==>
      && next < |FinalizedBy(sub.node.run, sub.node.now)| <= |Chain(sub.node.run)|
      && r.value == BlockInfo(Chain(sub.node.run)[next], next) && StandsAt(sub.View(), next + 1)
    ensures !sub.IsBest() ==> Paced(sub.node.run, old(sub.node.now), sub.node.now, 3, next, r.Ok?)
  {
    hide Sane, AppendOnly, Asked, Pending;
    r := sub.Next();
    FinalizedGrows(sub.node.run, sub.node.now, sub.node.now);
  }

  lemma NoneHitYet(chain: seq<Hash>, hit: iset<Hash>, from: nat)
    ensures NoneHit(chain, hit, from, from)
  {
  }

  lemma NoneHitStep(chain: seq<Hash>, hit: iset<Hash>, from: nat, next: nat)
    requires from <= next < |chain| && NoneHit(chain, hit, from, next) && chain[next] !in hit
    ensures NoneHit(chain, hit, from, next + 1)
  {
  }

  /** The first block of the range that holds the hash, or none of them. */
  ghost predicate RangeOutcome(run: seq<Moment>, body: map<Hash, seq<Tx>>, txHash: Hash,
                               blockStart: nat, blockEnd: nat, r: Result<Option<Receipt>>)
  {
    match r
    case Ok(Some(rc)) =>
      && rc.blockHeight <= blockEnd
      && FirstHit(Chain(run), Holds(body, txHash), blockStart, BlockInfo(rc.blockHash, rc.blockHeight))
      && rc.extHash == txHash && Some(rc.extIndex) == FirstWith(Txs(body, rc.blockHash), txHash)
    case Ok(None) => NoneHit(Chain(run), Holds(body, txHash), blockStart, blockEnd + 1)
    case Err(_) => true
  }

  /** The receipt `from_range` makes of a block: named by the subscription, read by height. */
  function ReceiptOf(info: BlockInfo, txs: seq<Tx>, txHash: Hash): Option<Receipt> {
    match FirstWith(txs, txHash)
    case None => None
    case Some(index) => Some(Receipt(info.hash, info.height, txHash, index))
  }

  /** One block of the range in either mode: what the best chain has at its height when asked. */
  ghost predicate ScanLook(run: seq<Moment>, body: map<Hash, seq<Tx>>, txHash: Hash, look: Look<Option<Receipt>>) {
    && SubStep(run, look.from, look.until, false, look.before, look.info, look.after)
    && (match look.info
        case Err(_) => look.answer.Err? && look.to == look.until
        case Ok(info) =>
          && look.to == look.until + 1
          && (look.answer.Ok? <==> Up(run, look.until) && info.height < |run[look.until].best|)
          && (look.answer.Ok? ==>
                var block := run[look.until].best[info.height];
                look.answer.value == (info, ReceiptOf(info, Txs(body, block), txHash))))
  }

  /** A scan in either mode so far: blocks below the end without the hash. */
  ghost predicate Scanning(run: seq<Moment>, body: map<Hash, seq<Tx>>, txHash: Hash, looks: seq<Look<Option<Receipt>>>,
                           from: nat, to: nat, start: SubView, view: SubView, blockEnd: nat)
  {
    && Chained(looks, from, to, start, view)
    && (forall i :: 0 <= i < |looks| ==> ScanLook(run, body, txHash, looks[i]))
    && (forall i :: 0 <= i < |looks| ==>
          looks[i].answer.Ok? && looks[i].answer.value.1.None? && looks[i].answer.value.0.height < blockEnd)
  }

  /** The whole scan in either mode: such blocks, then one that settles it. */
  ghost predicate ScanRun(run: seq<Moment>, body: map<Hash, seq<Tx>>, txHash: Hash, looks: seq<Look<Option<Receipt>>>,
                          from: nat, to: nat, start: SubView, blockEnd: nat, r: Result<Option<Receipt>>)
  {
    && looks != []
    && var last := looks[|looks| - 1];
    && Scanning(run, body, txHash, looks[..|looks| - 1], from, last.from, start, last.before, blockEnd)
    && ScanLook(run, body, txHash, last) && last.to == to
    && (match last.answer
        case Err(error) => r == Err(error)
        case Ok((info, receipt)) => r == Ok(receipt) && (receipt.None? ==> blockEnd <= info.height))
  }

  lemma ScanningYet(run: seq<Moment>, body: map<Hash, seq<Tx>>, txHash: Hash, from: nat, start: SubView, blockEnd: nat)
    ensures Scanning(run, body, txHash, [], from, from, start, start, blockEnd)
  {
  }

  /** One more look either ends the scan or goes on with it. */
  lemma ScanningStep(run: seq<Moment>, body: map<Hash, seq<Tx>>, txHash: Hash, looks: seq<Look<Option<Receipt>>>,
                     look: Look<Option<Receipt>>, from: nat, start: SubView, blockEnd: nat)
    requires Scanning(run, body, txHash, looks, from, look.from, start, look.before, blockEnd)
    requires ScanLook(run, body, txHash, look)
    ensures match look.answer
      case Err(error) => ScanRun(run, body, txHash, looks + [look], from, look.to, start, blockEnd, Err(error))
      case Ok((info, receipt)) =>
        if receipt.None? && info.height < blockEnd then
          Scanning(run, body, txHash, looks + [look], from, look.to, start, look.after, blockEnd)
        else
          ScanRun(run, body, txHash, looks + [look], from, look.to, start, blockEnd, Ok(receipt))
  {
    hide ScanLook;
    ChainedAppend(looks, look, from, start);
    assert (looks + [look])[..|looks|] == looks;
  }

  /** One block of the range: the receipt if the block at the subscription's height lists the hash. */
  method InspectBlock(sub: Sub, body: map<Hash, seq<Tx>>, txHash: Hash, ghost next: nat)
    returns (r: Result<(BlockInfo, Option<Receipt>)>, ghost look: Look<Option<Receipt>>)
    requires sub.Valid() && (!sub.IsBest() ==> StandsAt(sub.View(), next))
    modifies sub.Footprint()
    ensures sub.Valid() && fresh(sub.Footprint() - old(sub.Footprint())) && sub.IsBest() == old(sub.IsBest())
    ensures old(sub.node.now) < sub.node.now
    ensures r.Ok? ==> sub.node.now <= |sub.node.run|
    ensures !sub.IsBest() ==> Paced(sub.node.run, old(sub.node.now), sub.node.now, 4, next, r.Ok?)
    ensures r.Ok? && !sub.IsBest() ==>
      && next < |Chain(sub.node.run)| && r.value.0 == BlockInfo(Chain(sub.node.run)[next], next)
      && StandsAt(sub.View(), next + 1)
      && var index := FirstWith(Txs(body, r.value.0.hash), txHash);
         r.value.1 == if index.None? then None else Some(Receipt(r.value.0.hash, next, txHash, index.value))
    ensures r.Ok? && r.value.1.Some? ==> r.value.1.value.extHash == txHash
    ensures ScanLook(sub.node.run, body, txHash, look) && look.answer == r
    ensures look.from == old(sub.node.now) && look.to == sub.node.now
    ensures look.before == old(sub.View()) && look.after == sub.View()
  {
    hide Sane, AppendOnly, Paced, SubStep, Sub.Valid, FirstWith;
    ghost var from, run, before := sub.node.now, sub.node.run, sub.View();
    var info := NextBlock(sub, next);
    ghost var asked := sub.node.now;
    look := Look(from, asked, before, sub.View(), info, asked, Err(RpcFailed));
    if info.Err? {
      if !sub.IsBest() { PacedAnyway(run, from, asked, 3, 4, next, false); }
      r := Err(info.error);
      look := look.(answer := r);
      return;
    }
    var txs := sub.QueryAt(info.value.height, body);
    if !sub.IsBest() { PacedOneMore(run, from, asked, 3, next, asked + 1, txs.Ok?); }
    if txs.Err? {
      r := Err(txs.error);
      look := look.(answer := r, to := asked + 1);
      return;
    }
    assert Up(run, asked);
    var index := FirstWith(txs.value.GetOr([]), txHash);
    var receipt := None;
    if index.Some? {
      var extHash := txs.value.GetOr([])[index.value].hash;
      receipt := Some(Receipt(info.value.hash, info.value.height, extHash, index.value));
    }
    r := Ok((info.value, receipt));
    look := look.(answer := r, to := asked + 1);
  }

  lemma OnPaceYet(run: seq<Moment>, from: nat, height: int)
    ensures OnPace(run, from, from, 0, height)
  {
  }

  lemma ScanAnswered(run: seq<Moment>, from: nat, to: nat, inspections: nat, blockStart: nat, blockEnd: nat, ok: bool)
    requires 1 <= inspections <= blockEnd - blockStart + 1
    requires Paced(run, from, to, 4 * inspections, blockStart + inspections - 1, ok)
    ensures Available(run, from, 4 * (blockEnd - blockStart + 1), blockEnd) ==> ok
  {
  }

  lemma ScanFailed(run: seq<Moment>, body: map<Hash, seq<Tx>>, txHash: Hash, blockStart: nat, blockEnd: nat,
                   error: Error)
    ensures RangeOutcome(run, body, txHash, blockStart, blockEnd, Err(error))
  {
  }

  lemma ScanFound(run: seq<Moment>, body: map<Hash, seq<Tx>>, txHash: Hash, blockStart: nat, blockEnd: nat, rc: Receipt)
    requires blockStart <= rc.blockHeight <= blockEnd && rc.blockHeight < |Chain(run)|
    requires NoneHit(Chain(run), Holds(body, txHash), blockStart, rc.blockHeight)
    requires rc.blockHash == Chain(run)[rc.blockHeight] && rc.extHash == txHash
    requires Some(rc.extIndex) == FirstWith(Txs(body, rc.blockHash), txHash)
    ensures RangeOutcome(run, body, txHash, blockStart, blockEnd, Ok(Some(rc)))
  {
  }

  lemma ScanEmpty(run: seq<Moment>, body: map<Hash, seq<Tx>>, txHash: Hash, blockStart: nat, last: nat)
    requires NoneHit(Chain(run), Holds(body, txHash), blockStart, last + 1)
    ensures RangeOutcome(run, body, txHash, blockStart, last, Ok(None))
  {
  }

  method FromRange(node: Node, body: map<Hash, seq<Tx>>, txHash: Hash, blockStart: U32, blockEnd: U32,
                   useBestBlock: bool)
    returns (r: Result<Option<Receipt>>, ghost inspections: nat, ghost looks: seq<Look<Option<Receipt>>>)
    requires Sane(node.run) && AppendOnly(node.run)
    modifies node
    ensures blockStart > blockEnd ==> r == Err(ValidationFailed) && node.now == old(node.now)
    ensures !useBestBlock && blockStart <= blockEnd ==>
      && RangeOutcome(node.run, body, txHash, blockStart, blockEnd, r)
      && inspections <= blockEnd - blockStart + 1
      && Searched(node.run, old(node.now), node.now, Holds(body, txHash), blockStart,
                  inspections, 4 * inspections, r.Ok?)
      && (Available(node.run, old(node.now), 4 * (blockEnd - blockStart + 1), blockEnd) ==> r.Ok?)
    ensures r.Ok? && r.value.Some? ==> r.value.value.extHash == txHash
    ensures blockStart <= blockEnd ==>
      && |looks| == inspections
      && ScanRun(node.run, body, txHash, looks, old(node.now), node.now, Opened(useBestBlock, blockStart), blockEnd, r)
  {
    hide Sub.Valid, NoneHit, Sane, AppendOnly, FirstWith, Paced, OnPace, Available, RangeOutcome,
      ScanLook, Scanning, ScanRun;
    inspections, looks := 0, [];
    if blockStart > blockEnd { return Err(ValidationFailed), 0, []; }
    ghost var hit, from, run := Holds(body, txHash), node.now, node.run;
    var sub := new Sub(node);
    sub.UseBestBlock(useBestBlock);
    sub.SetBlockHeight(blockStart);
    NoneHitYet(Chain(run), hit, blockStart);
    OnPaceYet(run, from, blockStart - 1);
    ghost var start := sub.View();
    ScanningYet(run, body, txHash, from, start, blockEnd);
    while true
      invariant sub.Valid() && sub.node == node && fresh(sub.Footprint() - {node})
      invariant sub.IsBest() == useBestBlock && from <= node.now
      invariant !useBestBlock ==> StandsAt(sub.View(), blockStart + inspections)
      invariant !useBestBlock ==> NoneHit(Chain(run), hit, blockStart, blockStart + inspections)
      invariant !useBestBlock ==> blockStart + inspections <= blockEnd
      invariant !useBestBlock ==> OnPace(run, from, node.now, 4 * inspections, blockStart + inspections - 1)
      invariant |looks| == inspections
      invariant Scanning(run, body, txHash, looks, from, node.now, start, sub.View(), blockEnd)
      decreases if useBestBlock then |run| - node.now else blockEnd + 1 - blockStart - inspections
    {
      ghost var mid, next := node.now, blockStart + inspections;
      ghost var look: Look<Option<Receipt>>;
      var seen;
      seen, look := InspectBlock(sub, body, txHash, next);
      inspections := inspections + 1;
      ScanningStep(run, body, txHash, looks, look, from, start, blockEnd);
      looks := looks + [look];
      if !useBestBlock {
        PacedNext(run, from, mid, node.now, 4 * inspections - 4, 4, next, seen.Ok?);
        ScanAnswered(run, from, node.now, inspections, blockStart, blockEnd, seen.Ok?);
      }
      if seen.Err? {
        ScanFailed(run, body, txHash, blockStart, blockEnd, seen.error);
        return Err(seen.error), inspections, looks;
      }
      if seen.value.1.Some? {
        if !useBestBlock { ScanFound(run, body, txHash, blockStart, blockEnd, seen.value.1.value); }
        return Ok(seen.value.1), inspections, looks;
      }
      if !useBestBlock {
        NoneHitStep(Chain(run), hit, blockStart, next);
        ScanEmpty(run, body, txHash, blockStart, next);
      }
      if seen.value.0.height >= blockEnd { return Ok(None), inspections, looks; }
    }
  }

  /** A transaction in the range is found as soon as its own block is available, whatever the rest of the range. */
  lemma AvailableReceiptIsFound(run: seq<Moment>, from: nat, to: nat, body: map<Hash, seq<Tx>>, txHash: Hash,
                                blockStart: nat, blockEnd: nat, inspections: nat,
                                r: Result<Option<Receipt>>, info: BlockInfo)
    requires Searched(run, from, to, Holds(body, txHash), blockStart, inspections, 4 * inspections, r.Ok?)
    requires RangeOutcome(run, body, txHash, blockStart, blockEnd, r)
    requires FirstHit(Chain(run), Holds(body, txHash), blockStart, info) && info.height <= blockEnd
    requires Available(run, from, 4 * (info.height - blockStart + 1), info.height)
    ensures r.Ok? && r.value.Some? && BlockInfo(r.value.value.blockHash, r.value.value.blockHeight) == info
  {
    hide Searched, Available;
    HitIsReached(run, from, to, Holds(body, txHash), blockStart, inspections, 4, 0, r.Ok?, info);
  }

  /** In either mode a receipt is for the first extrinsic with the hash in a block some best chain had at its height. */
  lemma ScanRunReads(run: seq<Moment>, body: map<Hash, seq<Tx>>, txHash: Hash, looks: seq<Look<Option<Receipt>>>,
                     from: nat, to: nat, start: SubView, blockEnd: nat, rc: Receipt)
    requires ScanRun(run, body, txHash, looks, from, to, start, blockEnd, Ok(Some(rc)))
    ensures rc.extHash == txHash
    ensures exists t: nat :: t < |run| && run[t].up && ListedAt(run[t].best, body, txHash, rc.blockHeight, rc.extIndex)
  {
    var last := looks[|looks| - 1];
    var block := run[last.until].best[last.info.value.height];
    assert ListedAt(run[last.until].best, body, txHash, rc.blockHeight, rc.extIndex);
  }

  /**
   `from_range` reads a block by height after the subscription named it by hash. What it reads is the
   named block's, whatever the blocks hold, exactly when the best chain still has that block there.
   */
  lemma ReadsNamedBlockIff(best: seq<Hash>, info: BlockInfo, txHash: Hash)
    requires info.height < |best|
    ensures (forall body ::
               ReceiptOf(info, Txs(body, best[info.height]), txHash) == ReceiptOf(info, Txs(body, info.hash), txHash))
       <==> best[info.height] == info.hash
  {
    var there := best[info.height];
    if there != info.hash {
      var body := map[there := [Tx(txHash, None, 0)]];
      assert Txs(body, there)[0].hash == txHash && Txs(body, info.hash) == [];
      assert ReceiptOf(info, Txs(body, there), txHash) != ReceiptOf(info, Txs(body, info.hash), txHash);
    }
  }

  /** Following best blocks it may not: a fork switch in between gives a receipt for a block without the transaction. */
  lemma BestReceiptMayNameAnotherBlock()
    returns (run: seq<Moment>, body: map<Hash, seq<Tx>>, looks: seq<Look<Option<Receipt>>>, rc: Receipt)
    ensures Sane(run) && AppendOnly(run)
    ensures ScanRun(run, body, 7, looks, 0, 4, Opened(true, 1), 1, Ok(Some(rc)))
    ensures FirstWith(Txs(body, rc.blockHash), 7).None?
  {
    var before, after := Moment(true, [10], [10, 11]), Moment(true, [10], [10, 12]);
    run := [before, before, before, after];
    body := map[12 := [Tx(7, None, 0)]];
    rc := Receipt(11, 1, 7, 0);
    var info := BlockInfo(11, 1);
    var look := Look(0, 4, AtTip(Tip(1, [])), AtTip(Tip(1, [11])), Ok(info), 3, Ok((info, Some(rc))));
    ForkedStep(run, info);
    assert FirstWith(Txs(body, 12), 7) == Some(0);
    looks := [look];
    ScanningYet(run, body, 7, 0, look.before, 1);
    ScanningStep(run, body, 7, [], look, 0, look.before, 1);
    assert [] + [look] == looks;
  }

  lemma ForkedStep(run: seq<Moment>, info: BlockInfo)
    requires |run| == 4 && (forall t :: 0 <= t < 4 ==> run[t].up) && info == BlockInfo(11, 1)
    ensures SubStep(run, 0, 3, false, AtTip(Tip(1, [])), Ok(info), AtTip(Tip(1, [11])))
  {
  }

  // ---------------------------------------------------------------- watching the nonce

  /** What ends the search: the account's nonce moved past `nonce`, or it is 0 with the hash present. */
  ghost function Settles(body: map<Hash, seq<Tx>>, nonces: map<Hash, U32>, txHash: Hash, nonce: U32): iset<Hash> {
    iset block: Hash |
      || NonceAt(nonces, block) > nonce
      || (NonceAt(nonces, block) == 0 && FirstWith(Txs(body, block), txHash).Some?)
  }

  /** The last height inspected; the period is truncated to 32 bits and the sum saturates. */
  function LastInspected(birth: U32, period: U64): nat {
    SaturatingAdd(birth, period % U32_RANGE) + 1
  }

  /** One block of the window in either mode: its nonce, and its transactions if that is 0. */
  ghost predicate NonceLook(run: seq<Moment>, body: map<Hash, seq<Tx>>, nonces: map<Hash, U32>, nonce: U32,
                            txHash: Hash, look: Look<bool>)
  {
    && SubStep(run, look.from, look.until, false, look.before, look.info, look.after)
    && (match look.info
        case Err(_) => look.answer.Err? && look.to == look.until
        case Ok(info) =>
          && look.to == look.until + (if Up(run, look.until) && NonceAt(nonces, info.hash) == 0 then 2 else 1)
          && (look.answer.Ok? <==> Answered(run, look.until, look.to))
          && (look.answer.Ok? ==> look.answer.value == (info, info.hash in Settles(body, nonces, txHash, nonce))))
  }

  /** A search in either mode so far: blocks of the window that do not settle it. */
  ghost predicate Watching(run: seq<Moment>, body: map<Hash, seq<Tx>>, nonces: map<Hash, U32>, nonce: U32, txHash: Hash,
                           looks: seq<Look<bool>>, from: nat, to: nat, start: SubView, view: SubView, ends: nat)
  {
    && Chained(looks, from, to, start, view)
    && (forall i :: 0 <= i < |looks| ==> NonceLook(run, body, nonces, nonce, txHash, looks[i]))
    && (forall i :: 0 <= i < |looks| ==>
          looks[i].answer.Ok? && !looks[i].answer.value.1 && looks[i].answer.value.0.height <= ends)
  }

  /** The whole search in either mode: such blocks, then one that settles it or is past the window. */
  ghost predicate WatchRun(run: seq<Moment>, body: map<Hash, seq<Tx>>, nonces: map<Hash, U32>, nonce: U32, txHash: Hash,
                           looks: seq<Look<bool>>, from: nat, to: nat, start: SubView, ends: nat,
                           r: Result<Option<BlockInfo>>)
  {
    && looks != []
    && var last := looks[|looks| - 1];
    && Watching(run, body, nonces, nonce, txHash, looks[..|looks| - 1], from, last.from, start, last.before, ends)
    && NonceLook(run, body, nonces, nonce, txHash, last) && last.to == to
    && (match last.answer
        case Err(error) => r == Err(error)
        case Ok((info, true)) => r == Ok(Some(info))
        case Ok((info, false)) => r == Ok(None) && ends < info.height)
  }

  lemma WatchingYet(run: seq<Moment>, body: map<Hash, seq<Tx>>, nonces: map<Hash, U32>, nonce: U32, txHash: Hash,
                    from: nat, start: SubView, ends: nat)
    ensures Watching(run, body, nonces, nonce, txHash, [], from, from, start, start, ends)
  {
  }

  lemma WatchingStep(run: seq<Moment>, body: map<Hash, seq<Tx>>, nonces: map<Hash, U32>, nonce: U32, txHash: Hash,
                     looks: seq<Look<bool>>, look: Look<bool>, from: nat, start: SubView, ends: nat)
    requires Watching(run, body, nonces, nonce, txHash, looks, from, look.from, start, look.before, ends)
    requires NonceLook(run, body, nonces, nonce, txHash, look)
    ensures match look.answer
      case Err(error) =>
        WatchRun(run, body, nonces, nonce, txHash, looks + [look], from, look.to, start, ends, Err(error))
      case Ok((info, true)) =>
        WatchRun(run, body, nonces, nonce, txHash, looks + [look], from, look.to, start, ends, Ok(Some(info)))
      case Ok((info, false)) =>
        if info.height <= ends then
          Watching(run, body, nonces, nonce, txHash, looks + [look], from, look.to, start, look.after, ends)
        else
          WatchRun(run, body, nonces, nonce, txHash, looks + [look], from, look.to, start, ends, Ok(None))
  {
    hide NonceLook;
    ChainedAppend(looks, look, from, start);
    assert (looks + [look])[..|looks|] == looks;
  }

  /** One block of the window, and whether it settles the search. */
  method InspectNonce(sub: Sub, body: map<Hash, seq<Tx>>, nonces: map<Hash, U32>, nonce: U32, txHash: Hash,
                      ghost next: nat)
    returns (r: Result<(BlockInfo, bool)>, ghost look: Look<bool>)
    requires sub.Valid() && (!sub.IsBest() ==> StandsAt(sub.View(), next))
    modifies sub.Footprint()
    ensures sub.Valid() && fresh(sub.Footprint() - old(sub.Footprint())) && sub.IsBest() == old(sub.IsBest())
    ensures old(sub.node.now) < sub.node.now
    ensures r.Ok? ==> sub.node.now <= |sub.node.run|
    ensures r.Ok? ==> (r.value.1 <==> r.value.0.hash in Settles(body, nonces, txHash, nonce))
    ensures !sub.IsBest() ==> Paced(sub.node.run, old(sub.node.now), sub.node.now, 5, next, r.Ok?)
    ensures r.Ok? && !sub.IsBest() ==>
      && next < |Chain(sub.node.run)| && r.value.0 == BlockInfo(Chain(sub.node.run)[next], next)
      && StandsAt(sub.View(), next + 1)
    ensures NonceLook(sub.node.run, body, nonces, nonce, txHash, look) && look.answer == r
    ensures look.from == old(sub.node.now) && look.to == sub.node.now
    ensures look.before == old(sub.View()) && look.after == sub.View()
  {
    hide Sane, AppendOnly, Paced, SubStep, Sub.Valid;
    ghost var from, run, before := sub.node.now, sub.node.run, sub.View();
    var info := NextBlock(sub, next);
    ghost var asked := sub.node.now;
    look := Look(from, asked, before, sub.View(), info, asked, Err(RpcFailed));
    if info.Err? {
      if !sub.IsBest() { PacedAnyway(run, from, asked, 3, 5, next, false); }
      r := Err(info.error);
      look := look.(answer := r);
      return;
    }
    var stateNonce := sub.Query(info.value.hash, nonces);
    if !sub.IsBest() {
      PacedOneMore(run, from, asked, 3, next, asked + 1, stateNonce.Ok?);
      PacedAnyway(run, from, asked + 1, 4, 5, next, stateNonce.Ok?);
    }
    if stateNonce.Err? {
      r := Err(stateNonce.error);
      look := look.(answer := r, to := asked + 1);
      assert !Up(run, asked);
      return;
    }
    assert Up(run, asked);
    var current := stateNonce.value.GetOr(0);
    r := Ok((info.value, current > nonce));
    if current == 0 {
      var txs := sub.Query(info.value.hash, body);
      if !sub.IsBest() { PacedOneMore(run, from, asked + 1, 4, next, asked + 2, txs.Ok?); }
      if txs.Err? {
        r := Err(txs.error);
        look := look.(answer := r, to := asked + 2);
        assert !Up(run, asked + 1);
        return;
      }
      assert Up(run, asked + 1);
      r := Ok((info.value, FirstWith(txs.value.GetOr([]), txHash).Some?));
    }
    look := look.(answer := r, to := sub.node.now);
  }

  method FindCorrectBlockInfo(node: Node, body: map<Hash, seq<Tx>>, nonces: map<Hash, U32>, nonce: U32, txHash: Hash,
                              birth: U32, period: U64, useBestBlock: bool)
    returns (r: Result<Option<BlockInfo>>, ghost inspections: nat, ghost looks: seq<Look<bool>>)
    requires Sane(node.run) && AppendOnly(node.run)
    modifies node
    ensures old(node.now) <= node.now
    ensures !useBestBlock ==>
      var hit, last := Settles(body, nonces, txHash, nonce), LastInspected(birth, period);
      && FindOutcome(node.run, hit, birth, last, r)
      && inspections <= last - birth + 1
      && Searched(node.run, old(node.now), node.now, hit, birth, inspections, 5 * inspections, r.Ok?)
    ensures r.Ok? && r.value.Some? ==> r.value.value.hash in Settles(body, nonces, txHash, nonce)
    ensures |looks| == inspections
    ensures WatchRun(node.run, body, nonces, nonce, txHash, looks, old(node.now), node.now,
                     Opened(useBestBlock, birth), LastInspected(birth, period) - 1, r)
  {
    hide Sub.Valid, Sane, AppendOnly, FirstWith, Paced, OnPace, NoneHit, Settles, NonceLook, Watching, WatchRun;
    var mortalityEnds := SaturatingAdd(birth, period % U32_RANGE);
    ghost var hit, from, run := Settles(body, nonces, txHash, nonce), node.now, node.run;
    var sub := new Sub(node);
    sub.SetBlockHeight(birth);
    sub.UseBestBlock(useBestBlock);
    var current := birth;
    inspections, looks := 0, [];
    ghost var start := sub.View();
    WatchingYet(run, body, nonces, nonce, txHash, from, start, mortalityEnds);
    NoneHitYet(Chain(run), hit, birth);
    OnPaceYet(run, from, birth - 1);
    while mortalityEnds >= current
      invariant sub.Valid() && sub.node == node && fresh(sub.Footprint() - {node})
      invariant sub.IsBest() == useBestBlock && from <= node.now
      invariant !useBestBlock ==> StandsAt(sub.View(), birth + inspections)
      invariant !useBestBlock ==> NoneHit(Chain(run), hit, birth, birth + inspections)
      invariant !useBestBlock ==>
        current == Max(birth, birth + inspections - 1) && birth + inspections - 2 <= mortalityEnds
      invariant !useBestBlock ==> OnPace(run, from, node.now, 5 * inspections, birth + inspections - 1)
      invariant !useBestBlock && inspections > 0 ==>
        Searched(run, from, node.now, hit, birth, inspections, 5 * inspections, true)
      invariant |looks| == inspections
      invariant
        if current <= mortalityEnds then
          Watching(run, body, nonces, nonce, txHash, looks, from, node.now, start, sub.View(), mortalityEnds)
        else
          WatchRun(run, body, nonces, nonce, txHash, looks, from, node.now, start, mortalityEnds, Ok(None))
      decreases if useBestBlock then |run| - node.now else mortalityEnds + 2 - birth - inspections
    {
      ghost var mid, next := node.now, birth + inspections;
      ghost var look: Look<bool>;
      var seen;
      seen, look := InspectNonce(sub, body, nonces, nonce, txHash, next);
      inspections := inspections + 1;
      WatchingStep(run, body, nonces, nonce, txHash, looks, look, from, start, mortalityEnds);
      looks := looks + [look];
      if !useBestBlock { PacedNext(run, from, mid, node.now, 5 * inspections - 5, 5, next, seen.Ok?); }
      if seen.Err? { return Err(seen.error), inspections, looks; }
      current := seen.value.0.height;
      if seen.value.1 { return Ok(Some(seen.value.0)), inspections, looks; }
      if !useBestBlock { NoneHitStep(Chain(run), hit, birth, next); }
    }
    r := Ok(None);
  }

  /** The first settling block of [birth, last], or none. */
  ghost predicate FindOutcome(run: seq<Moment>, hit: iset<Hash>, birth: nat, last: nat, r: Result<Option<BlockInfo>>) {
    match r
    case Ok(Some(info)) => FirstHit(Chain(run), hit, birth, info) && info.height <= last
    case Ok(None) => NoneHit(Chain(run), hit, birth, last + 1)
    case Err(_) => true
  }

  method TransactionReceipt(node: Node, body: map<Hash, seq<Tx>>, nonces: map<Hash, U32>, nonce: U32, txHash: Hash,
                            birth: U32, period: U64, useBestBlock: bool)
    returns (r: Result<Option<Receipt>>, ghost inspections: nat, ghost looks: seq<Look<bool>>)
    requires Sane(node.run) && AppendOnly(node.run)
    modifies node
    ensures !useBestBlock ==>
      var hit, last := Settles(body, nonces, txHash, nonce), LastInspected(birth, period);
      && (r.Ok? ==> ReceiptOutcome(Chain(node.run), body, hit, txHash, birth, last, r.value))
      && inspections <= last - birth + 1
      && Searched(node.run, old(node.now), node.now, hit, birth, inspections, 5 * inspections + 1, r.Ok?)
    ensures r.Ok? && r.value.Some? ==>
      var rc := r.value.value;
      && rc.blockHash in Settles(body, nonces, txHash, nonce)
      && rc.extHash == txHash && Some(rc.extIndex) == FirstWith(Txs(body, rc.blockHash), txHash)
    ensures |looks| == inspections
    ensures ReceiptRun(node.run, body, nonces, nonce, txHash, looks, old(node.now), node.now,
                       Opened(useBestBlock, birth), LastInspected(birth, period) - 1, r)
  {
    hide Sane, AppendOnly, Paced, NoneHit, WatchRun;
    ghost var from, run := node.now, node.run;
    var found;
    found, inspections, looks := FindCorrectBlockInfo(node, body, nonces, nonce, txHash, birth, period, useBestBlock);
    ghost var asked, last := node.now, birth + inspections - 1;
    if !useBestBlock { PacedAnyway(run, from, asked, 5 * inspections, 5 * inspections + 1, last, found.Ok?); }
    if found.Err? { return Err(found.error), inspections, looks; }
    if found.value.None? { return Ok(None), inspections, looks; }
    var info := found.value.value;
    var txs := node.Query(info.hash, body);
    if !useBestBlock { PacedOneMore(run, from, asked, 5 * inspections, last, asked + 1, txs.Ok?); }
    if txs.Err? { return Err(txs.error), inspections, looks; }
    var index := FirstWith(txs.value.GetOr([]), txHash);
    if index.None? { return Ok(None), inspections, looks; }
    r := Ok(Some(Receipt(info.hash, info.height, txs.value.GetOr([])[index.value].hash, index.value)));
  }

  /** The whole call in either mode: the search, then one RPC about the block that settled it. */
  ghost predicate ReceiptRun(run: seq<Moment>, body: map<Hash, seq<Tx>>, nonces: map<Hash, U32>, nonce: U32,
                             txHash: Hash, looks: seq<Look<bool>>, from: nat, to: nat, start: SubView, ends: nat,
                             r: Result<Option<Receipt>>)
  {
    exists mid: nat, found ::
      && WatchRun(run, body, nonces, nonce, txHash, looks, from, mid, start, ends, found)
      && (match found
          case Err(error) => to == mid && r == Err(error)
          case Ok(None) => to == mid && r == Ok(None)
          case Ok(Some(info)) =>
            && to == mid + 1 && (r.Ok? <==> Up(run, mid))
            && (r.Ok? ==> r.value == ReceiptOf(info, Txs(body, info.hash), txHash)))
  }

  /**
   Once the settling block is finalised and the RPCs it takes to get there are answered, the call is
   answered too, without waiting for the rest of the window; so is a search of the whole window.
   */
  lemma AvailableReceiptIsAnswered(run: seq<Moment>, from: nat, to: nat, body: map<Hash, seq<Tx>>, hit: iset<Hash>,
                                   txHash: Hash, birth: nat, last: nat, inspections: nat, r: Result<Option<Receipt>>)
    requires Searched(run, from, to, hit, birth, inspections, 5 * inspections + 1, r.Ok?)
    requires inspections <= last - birth + 1
    requires r.Ok? ==> ReceiptOutcome(Chain(run), body, hit, txHash, birth, last, r.value)
    ensures Available(run, from, 5 * (last - birth + 1) + 1, last) ==> r.Ok?
    ensures forall info ::
      (FirstHit(Chain(run), hit, birth, info) && info.height <= last
       && Available(run, from, 5 * (info.height - birth + 1) + 1, info.height)) ==>
        r.Ok? && (r.value.Some? <==> info.hash in Holds(body, txHash))
  {
    hide Paced, Available, Holds, FirstWith;
    if Available(run, from, 5 * (last - birth + 1) + 1, last) {
      AvailableIsAnswered(run, from, to, 5 * inspections + 1, birth + inspections - 1, r.Ok?,
                          5 * (last - birth + 1) + 1, last);
    }
    forall info | FirstHit(Chain(run), hit, birth, info) && info.height <= last
               && Available(run, from, 5 * (info.height - birth + 1) + 1, info.height)
      ensures r.Ok? && (r.value.Some? <==> info.hash in Holds(body, txHash))
    {
      HitIsReached(run, from, to, hit, birth, inspections, 5, 1, r.Ok?, info);
      SettledReceipt(Chain(run), body, hit, txHash, birth, last, r.value, info);
    }
  }

  lemma SettledReceipt(chain: seq<Hash>, body: map<Hash, seq<Tx>>, hit: iset<Hash>, txHash: Hash,
                       birth: nat, last: nat, r: Option<Receipt>, info: BlockInfo)
    requires ReceiptOutcome(chain, body, hit, txHash, birth, last, r)
    requires FirstHit(chain, hit, birth, info) && info.height <= last
    ensures r.Some? <==> info.hash in Holds(body, txHash)
  {
  }

  ghost predicate ReceiptOutcome(chain: seq<Hash>, body: map<Hash, seq<Tx>>, hit: iset<Hash>, txHash: Hash,
                                 birth: nat, last: nat, r: Option<Receipt>)
  {
    match r
    case Some(rc) =>
      && FirstHit(chain, hit, birth, BlockInfo(rc.blockHash, rc.blockHeight)) && rc.blockHeight <= last
      && rc.extHash == txHash && Some(rc.extIndex) == FirstWith(Txs(body, rc.blockHash), txHash)
    case None =>
      || NoneHit(chain, hit, birth, last + 1)
      || (exists info :: FirstHit(chain, hit, birth, info) && info.height <= last && info.hash !in Holds(body, txHash))
  }

  // ---------------------------------------------------------------- what the nonce says about inclusion

  /** How many of `txs` the account signed. */
  function Signed(txs: seq<Tx>, who: Account): nat {
    if txs == [] then 0
    else Signed(txs[..|txs| - 1], who) + if txs[|txs| - 1].signer == Some(who) then 1 else 0
  }

  /** The account's nonce before the block at a height. */
  ghost function NonceBefore(chain: seq<Hash>, nonces: map<Hash, U32>, height: nat): nat
    requires height <= |chain|
  {
    if height == 0 then 0 else NonceAt(nonces, chain[height - 1])
  }

  /**
   The account's transactions in a block carry the nonces from the one before the block on, and the
   state nonce counts them; or the account was reaped by the end of the block, and the nonce is 0.
   */
  ghost predicate CountsOrReaped(chain: seq<Hash>, body: map<Hash, seq<Tx>>, nonces: map<Hash, U32>, who: Account) {
    && (forall h :: 0 <= h < |chain| ==>
          || NonceAt(nonces, chain[h]) == NonceBefore(chain, nonces, h) + Signed(Txs(body, chain[h]), who)
          || NonceAt(nonces, chain[h]) == 0)
    && (forall h, i ::
          (0 <= h < |chain| && 0 <= i < |Txs(body, chain[h])| && Txs(body, chain[h])[i].signer == Some(who)) ==>
            Txs(body, chain[h])[i].nonce == NonceBefore(chain, nonces, h) + Signed(Txs(body, chain[h])[..i], who))
  }

  /** The nonce counts the account's transactions throughout: it is never reaped. */
  ghost predicate NeverReaped(chain: seq<Hash>, body: map<Hash, seq<Tx>>, nonces: map<Hash, U32>, who: Account) {
    forall h :: 0 <= h < |chain| ==>
      NonceAt(nonces, chain[h]) == NonceBefore(chain, nonces, h) + Signed(Txs(body, chain[h]), who)
  }

  /** From `birth` on, at most one block includes the account's nonce. */
  ghost predicate UsedOnce(chain: seq<Hash>, body: map<Hash, seq<Tx>>, who: Account, nonce: nat, birth: nat) {
    forall g, h ::
      (birth <= g < |chain| && birth <= h < |chain|
       && IncludesNonce(Txs(body, chain[g]), who, nonce) && IncludesNonce(Txs(body, chain[h]), who, nonce)) ==>
        g == h
  }

  /** The hash names one signed payload: whatever carries it was signed by `who` with `nonce`. */
  ghost predicate Names(chain: seq<Hash>, body: map<Hash, seq<Tx>>, txHash: Hash, who: Account, nonce: U32) {
    forall h, i :: 0 <= h < |chain| && 0 <= i < |Txs(body, chain[h])| && Txs(body, chain[h])[i].hash == txHash ==>
      Txs(body, chain[h])[i].signer == Some(who) && Txs(body, chain[h])[i].nonce == nonce
  }

  ghost predicate IncludesNonce(txs: seq<Tx>, who: Account, nonce: nat) {
    exists i :: 0 <= i < |txs| && txs[i].signer == Some(who) && txs[i].nonce == nonce
  }

  lemma SignedPrefix(txs: seq<Tx>, who: Account, i: nat)
    requires i < |txs|
    ensures Signed(txs[..i], who) + (if txs[i].signer == Some(who) then 1 else 0) <= Signed(txs, who)
  {
    if i == |txs| - 1 {
    } else {
      SignedPrefix(txs[..|txs| - 1], who, i);
      assert txs[..|txs| - 1][..i] == txs[..i];
    }
  }

  /** The k-th signed transaction exists for every k below the count. */
  lemma KthSigned(txs: seq<Tx>, who: Account, k: nat) returns (i: nat)
    requires k < Signed(txs, who)
    ensures i < |txs| && txs[i].signer == Some(who) && Signed(txs[..i], who) == k
  {
    var n := |txs| - 1;
    if k < Signed(txs[..n], who) {
      i := KthSigned(txs[..n], who, k);
      assert txs[..n][..i] == txs[..i];
    } else {
      i := n;
    }
  }

  /** A block includes nonce n exactly when its transactions take the nonce past n. */
  lemma NonceIncludedWhereCounted(chain: seq<Hash>, body: map<Hash, seq<Tx>>, nonces: map<Hash, U32>, who: Account,
                                  nonce: U32, h: nat)
    requires CountsOrReaped(chain, body, nonces, who) && h < |chain|
    ensures IncludesNonce(Txs(body, chain[h]), who, nonce)
       <==> NonceBefore(chain, nonces, h) <= nonce < NonceBefore(chain, nonces, h) + Signed(Txs(body, chain[h]), who)
  {
    var txs, base := Txs(body, chain[h]), NonceBefore(chain, nonces, h);
    if IncludesNonce(txs, who, nonce) {
      var i :| 0 <= i < |txs| && txs[i].signer == Some(who) && txs[i].nonce == nonce;
      SignedPrefix(txs, who, i);
    }
    if base <= nonce < base + Signed(txs, who) {
      var i := KthSigned(txs, who, nonce - base);
      assert txs[i].nonce == nonce;
    }
  }

  lemma HoldsIff(body: map<Hash, seq<Tx>>, block: Hash, txHash: Hash)
    ensures block in Holds(body, txHash) <==>
      exists i :: 0 <= i < |Txs(body, block)| && Txs(body, block)[i].hash == txHash
  {
  }

  /** The block that holds the named transaction includes its nonce, and settles the search, reaped or not. */
  lemma HoldingBlockSettles(chain: seq<Hash>, body: map<Hash, seq<Tx>>, nonces: map<Hash, U32>, who: Account,
                            nonce: U32, txHash: Hash, h: nat)
    requires CountsOrReaped(chain, body, nonces, who) && Names(chain, body, txHash, who, nonce)
    requires h < |chain| && chain[h] in Holds(body, txHash)
    ensures IncludesNonce(Txs(body, chain[h]), who, nonce)
    ensures chain[h] in Settles(body, nonces, txHash, nonce)
  {
    var i := FirstWith(Txs(body, chain[h]), txHash).value;
    assert Txs(body, chain[h])[i].hash == txHash;
    NonceIncludedWhereCounted(chain, body, nonces, who, nonce, h);
  }

  lemma SettlesBy(body: map<Hash, seq<Tx>>, nonces: map<Hash, U32>, txHash: Hash, nonce: U32, block: Hash)
    ensures block in Settles(body, nonces, txHash, nonce) <==>
      NonceAt(nonces, block) > nonce || (NonceAt(nonces, block) == 0 && block in Holds(body, txHash))
  {
  }

  lemma CountedAt(chain: seq<Hash>, body: map<Hash, seq<Tx>>, nonces: map<Hash, U32>, who: Account, h: nat)
    requires CountsOrReaped(chain, body, nonces, who) && h < |chain|
    ensures
      || NonceAt(nonces, chain[h]) == NonceBefore(chain, nonces, h) + Signed(Txs(body, chain[h]), who)
      || NonceAt(nonces, chain[h]) == 0
  {
  }

  /** The block the search settles on is a block that included nonce n. */
  lemma {:induction false} SettledBlockIncludesNonce(
    chain: seq<Hash>, body: map<Hash, seq<Tx>>, nonces: map<Hash, U32>,
    who: Account, nonce: U32, txHash: Hash, birth: nat, info: BlockInfo)
    requires CountsOrReaped(chain, body, nonces, who) && Names(chain, body, txHash, who, nonce)
    requires birth <= |chain| && NonceBefore(chain, nonces, birth) <= nonce
    requires FirstHit(chain, Settles(body, nonces, txHash, nonce), birth, info)
    ensures IncludesNonce(Txs(body, info.hash), who, nonce)
  {
    hide Settles, Holds, IncludesNonce, Names, CountsOrReaped;
    var h := info.height;
    CountedAt(chain, body, nonces, who, h);
    SettlesBy(body, nonces, txHash, nonce, info.hash);
    if NonceAt(nonces, info.hash) == 0 {
      HoldingBlockSettles(chain, body, nonces, who, nonce, txHash, h);
    } else {
      if birth < h { SettlesBy(body, nonces, txHash, nonce, chain[h - 1]); }
      NonceIncludedWhereCounted(chain, body, nonces, who, nonce, h);
    }
  }

  /**
   When the nonce had not passed n before `birth`, a receipt is found exactly when some block of the
   inspected window holds the transaction and no earlier one of the window took the nonce past n.
   */
  lemma {:induction false} ReceiptIffNotOvertaken(
    chain: seq<Hash>, body: map<Hash, seq<Tx>>, nonces: map<Hash, U32>, who: Account,
    nonce: U32, txHash: Hash, birth: nat, last: nat, r: Option<Receipt>)
    requires CountsOrReaped(chain, body, nonces, who) && Names(chain, body, txHash, who, nonce)
    requires ReceiptOutcome(chain, body, Settles(body, nonces, txHash, nonce), txHash, birth, last, r)
    ensures r.Some? <==> exists h :: birth <= h <= last && h < |chain| && chain[h] in Holds(body, txHash)
                                  && NotPassed(chain, nonces, nonce, birth, h)
    ensures r.Some? ==> birth <= r.value.blockHeight < |chain| && chain[r.value.blockHeight] in Holds(body, txHash)
  {
    hide CountsOrReaped, Names, Settles, NotPassed;
    if h :| birth <= h <= last && h < |chain| && chain[h] in Holds(body, txHash)
            && NotPassed(chain, nonces, nonce, birth, h) {
      HoldingBlockSettles(chain, body, nonces, who, nonce, txHash, h);
      SettledBefore(chain, body, nonces, nonce, txHash, birth, h);
    }
    if r.Some? {
      assert chain[r.value.blockHeight] in Holds(body, txHash);
      NoneHitNotPassed(chain, body, nonces, nonce, txHash, birth, r.value.blockHeight);
    }
  }

  /** Where the search stops at or before a block that holds the transaction, it stops at one that does. */
  lemma SettledBefore(chain: seq<Hash>, body: map<Hash, seq<Tx>>, nonces: map<Hash, U32>, nonce: U32, txHash: Hash,
                      birth: nat, h: nat)
    requires birth <= h < |chain| && chain[h] in Holds(body, txHash) && NotPassed(chain, nonces, nonce, birth, h)
    requires chain[h] in Settles(body, nonces, txHash, nonce)
    ensures forall info :: FirstHit(chain, Settles(body, nonces, txHash, nonce), birth, info) ==>
      info.height <= h && info.hash in Holds(body, txHash)
  {
    hide Settles, Holds;
    forall info | FirstHit(chain, Settles(body, nonces, txHash, nonce), birth, info)
      ensures info.height <= h && info.hash in Holds(body, txHash)
    {
      SettlesBy(body, nonces, txHash, nonce, info.hash);
    }
  }

  lemma NoneHitNotPassed(chain: seq<Hash>, body: map<Hash, seq<Tx>>, nonces: map<Hash, U32>, nonce: U32, txHash: Hash,
                         birth: nat, to: nat)
    requires NoneHit(chain, Settles(body, nonces, txHash, nonce), birth, to)
    ensures NotPassed(chain, nonces, nonce, birth, to)
  {
    hide Settles, Holds;
    forall g | birth <= g < to && g < |chain|
      ensures NonceAt(nonces, chain[g]) <= nonce
    {
      SettlesBy(body, nonces, txHash, nonce, chain[g]);
    }
  }

  /** No block of [from, to) has a state nonce above n. */
  ghost predicate NotPassed(chain: seq<Hash>, nonces: map<Hash, U32>, nonce: nat, from: nat, to: nat) {
    forall g :: from <= g < to && g < |chain| ==> NonceAt(nonces, chain[g]) <= nonce
  }

  /** As long as no block includes nonce n, none takes the nonce past it. */
  lemma {:induction false} NotPassedUntilIncluded(chain: seq<Hash>, body: map<Hash, seq<Tx>>, nonces: map<Hash, U32>,
                                                  who: Account, nonce: U32, birth: nat, h: nat)
    requires CountsOrReaped(chain, body, nonces, who) && birth <= h <= |chain|
    requires NonceBefore(chain, nonces, birth) <= nonce
    requires forall g :: birth <= g < h ==> !IncludesNonce(Txs(body, chain[g]), who, nonce)
    ensures NotPassed(chain, nonces, nonce, birth, h) && NonceBefore(chain, nonces, h) <= nonce
  {
    hide CountsOrReaped, IncludesNonce;
    if birth == h {
    } else {
      NotPassedUntilIncluded(chain, body, nonces, who, nonce, birth, h - 1);
      CountedAt(chain, body, nonces, who, h - 1);
      NonceIncludedWhereCounted(chain, body, nonces, who, nonce, h - 1);
    }
  }

  /**
   When the nonce counts the account's transactions, up to the account being reaped, had not passed n
   before `birth`, and is used no more than once from there, a receipt is found if and only if the
   transaction is in a block of the inspected window, and it names that block.
   */
  lemma {:induction false} ReceiptIffIncluded(
    chain: seq<Hash>, body: map<Hash, seq<Tx>>, nonces: map<Hash, U32>, who: Account,
    nonce: U32, txHash: Hash, birth: nat, last: nat, r: Option<Receipt>)
    requires CountsOrReaped(chain, body, nonces, who) && Names(chain, body, txHash, who, nonce)
    requires birth <= |chain| && NonceBefore(chain, nonces, birth) <= nonce && UsedOnce(chain, body, who, nonce, birth)
    requires ReceiptOutcome(chain, body, Settles(body, nonces, txHash, nonce), txHash, birth, last, r)
    ensures r.Some? <==> exists h :: birth <= h <= last && h < |chain| && chain[h] in Holds(body, txHash)
    ensures forall h :: r.Some? && birth <= h < |chain| ==>
      (chain[h] in Holds(body, txHash) <==> h == r.value.blockHeight)
  {
    hide FirstWith, CountsOrReaped, Names, Settles, ReceiptOutcome, IncludesNonce, Holds;
    ReceiptIffNotOvertaken(chain, body, nonces, who, nonce, txHash, birth, last, r);
    forall h | birth <= h < |chain| && chain[h] in Holds(body, txHash)
      ensures IncludesNonce(Txs(body, chain[h]), who, nonce) && NotPassed(chain, nonces, nonce, birth, h)
    {
      HoldingBlockSettles(chain, body, nonces, who, nonce, txHash, h);
      NotPassedUntilIncluded(chain, body, nonces, who, nonce, birth, h);
    }
  }

  /** An account that is never reaped uses every nonce once, and its nonce counts. */
  lemma NeverReapedUsesOnce(chain: seq<Hash>, body: map<Hash, seq<Tx>>, nonces: map<Hash, U32>, who: Account,
                            nonce: U32, birth: nat)
    requires CountsOrReaped(chain, body, nonces, who) && NeverReaped(chain, body, nonces, who)
    ensures UsedOnce(chain, body, who, nonce, birth)
  {
    forall g, h | birth <= g < h < |chain|
                  && IncludesNonce(Txs(body, chain[g]), who, nonce) && IncludesNonce(Txs(body, chain[h]), who, nonce)
      ensures false
    {
      NonceIncludedWhereCounted(chain, body, nonces, who, nonce, g);
      NonceIncludedWhereCounted(chain, body, nonces, who, nonce, h);
      NonceGrows(chain, body, nonces, who, g + 1, h);
    }
  }

  lemma NonceGrows(chain: seq<Hash>, body: map<Hash, seq<Tx>>, nonces: map<Hash, U32>, who: Account, a: nat, b: nat)
    requires NeverReaped(chain, body, nonces, who) && a <= b <= |chain|
    ensures NonceBefore(chain, nonces, a) <= NonceBefore(chain, nonces, b)
  {
    hide Signed, Txs;
    if a == b {
    } else {
      NonceGrows(chain, body, nonces, who, a, b - 1);
    }
  }

  // ---------------------------------------------------------------- the outcomes in plain terms

  /** What settles the search, in terms of what the node holds for the block. */
  lemma SettlesIff(body: map<Hash, seq<Tx>>, nonces: map<Hash, U32>, txHash: Hash, nonce: U32, block: Hash)
    ensures block in Settles(body, nonces, txHash, nonce) <==>
      || (block in nonces && nonces[block] > nonce)
      || ((block !in nonces || nonces[block] == 0) && block in body
          && exists i :: 0 <= i < |body[block]| && body[block][i].hash == txHash)
  {
  }

  /** The block at a height settles the search. */
  ghost predicate EndsAt(chain: seq<Hash>, body: map<Hash, seq<Tx>>, nonces: map<Hash, U32>, txHash: Hash, nonce: U32,
                         h: nat)
  {
    && h < |chain|
    && var block := chain[h];
       || (block in nonces && nonces[block] > nonce)
       || ((block !in nonces || nonces[block] == 0) && block in body
           && exists i :: 0 <= i < |body[block]| && body[block][i].hash == txHash)
  }

  /**
   The search returns exactly the lowest block of its window whose state nonce exceeds n, or is 0 (as it is
   for an account that is not there) with the transaction in the block.
   */
  lemma FoundIsLowest(run: seq<Moment>, body: map<Hash, seq<Tx>>, nonces: map<Hash, U32>, txHash: Hash, nonce: U32,
                      birth: nat, last: nat, r: Result<Option<BlockInfo>>, info: BlockInfo)
    requires FindOutcome(run, Settles(body, nonces, txHash, nonce), birth, last, r) && r.Ok?
    ensures r == Ok(Some(info)) <==>
      && birth <= info.height <= last && info.height < |Chain(run)| && info.hash == Chain(run)[info.height]
      && EndsAt(Chain(run), body, nonces, txHash, nonce, info.height)
      && forall h :: birth <= h < info.height ==> !EndsAt(Chain(run), body, nonces, txHash, nonce, h)
  {
    hide FirstWith, Settles;
    forall h | birth <= h < |Chain(run)|
      ensures EndsAt(Chain(run), body, nonces, txHash, nonce, h)
         <==> Chain(run)[h] in Settles(body, nonces, txHash, nonce)
    {
      SettlesIff(body, nonces, txHash, nonce, Chain(run)[h]);
    }
  }

  /** The block at a height lists the hash at an index. */
  ghost predicate ListedAt(chain: seq<Hash>, body: map<Hash, seq<Tx>>, txHash: Hash, h: nat, i: nat) {
    h < |chain| && chain[h] in body && i < |body[chain[h]]| && body[chain[h]][i].hash == txHash
  }

  /** The receipt of the first extrinsic with the hash, in the lowest block of the range that lists one. */
  ghost predicate LowestListed(chain: seq<Hash>, body: map<Hash, seq<Tx>>, txHash: Hash, blockStart: nat, blockEnd: nat,
                               rc: Receipt)
  {
    && blockStart <= rc.blockHeight <= blockEnd && rc.extHash == txHash
    && rc.blockHeight < |chain| && rc.blockHash == chain[rc.blockHeight]
    && ListedAt(chain, body, txHash, rc.blockHeight, rc.extIndex)
    && (forall i :: 0 <= i < rc.extIndex ==> !ListedAt(chain, body, txHash, rc.blockHeight, i))
    && (forall h, i: nat :: blockStart <= h < rc.blockHeight ==> !ListedAt(chain, body, txHash, h, i))
  }

  /** The scan returns exactly that receipt, and none only when there is none. */
  lemma ScannedIsLowest(run: seq<Moment>, body: map<Hash, seq<Tx>>, txHash: Hash, blockStart: nat, blockEnd: nat,
                        r: Result<Option<Receipt>>, rc: Receipt)
    requires RangeOutcome(run, body, txHash, blockStart, blockEnd, r) && r.Ok?
    ensures r == Ok(Some(rc)) <==> LowestListed(Chain(run), body, txHash, blockStart, blockEnd, rc)
  {
    hide RangeOutcome, LowestListed;
    if r.value.Some? {
      FoundIsListed(run, body, txHash, blockStart, blockEnd, r.value.value);
      if LowestListed(Chain(run), body, txHash, blockStart, blockEnd, rc) {
        LowestIsUnique(Chain(run), body, txHash, blockStart, blockEnd, rc, r.value.value);
      }
    } else {
      NoneIsListed(run, body, txHash, blockStart, blockEnd, rc);
    }
  }

  lemma FoundIsListed(run: seq<Moment>, body: map<Hash, seq<Tx>>, txHash: Hash, blockStart: nat, blockEnd: nat,
                      rc: Receipt)
    requires RangeOutcome(run, body, txHash, blockStart, blockEnd, Ok(Some(rc)))
    ensures LowestListed(Chain(run), body, txHash, blockStart, blockEnd, rc)
  {
    hide FirstWith, Holds, ListedAt;
    FirstListed(Chain(run), body, txHash, rc.blockHeight, rc.extIndex);
    forall h, i: nat | blockStart <= h < rc.blockHeight
      ensures !ListedAt(Chain(run), body, txHash, h, i)
    {
      ListedIff(Chain(run), body, txHash, h);
    }
  }

  lemma NoneIsListed(run: seq<Moment>, body: map<Hash, seq<Tx>>, txHash: Hash, blockStart: nat, blockEnd: nat,
                     rc: Receipt)
    requires RangeOutcome(run, body, txHash, blockStart, blockEnd, Ok(None))
    ensures !LowestListed(Chain(run), body, txHash, blockStart, blockEnd, rc)
  {
    hide FirstWith, Holds;
    if LowestListed(Chain(run), body, txHash, blockStart, blockEnd, rc) {
      ListedIff(Chain(run), body, txHash, rc.blockHeight);
    }
  }

  lemma LowestIsUnique(chain: seq<Hash>, body: map<Hash, seq<Tx>>, txHash: Hash, blockStart: nat, blockEnd: nat,
                       a: Receipt, b: Receipt)
    requires LowestListed(chain, body, txHash, blockStart, blockEnd, a)
    requires LowestListed(chain, body, txHash, blockStart, blockEnd, b)
    ensures a == b
  {
    hide ListedAt;
  }

  lemma ListedIff(chain: seq<Hash>, body: map<Hash, seq<Tx>>, txHash: Hash, h: nat)
    requires h < |chain|
    ensures chain[h] in Holds(body, txHash) <==> exists i: nat :: ListedAt(chain, body, txHash, h, i)
  {
    HoldsIff(body, chain[h], txHash);
    if chain[h] in Holds(body, txHash) {
      var i :| 0 <= i < |Txs(body, chain[h])| && Txs(body, chain[h])[i].hash == txHash;
      assert ListedAt(chain, body, txHash, h, i);
    }
  }

  lemma FirstListed(chain: seq<Hash>, body: map<Hash, seq<Tx>>, txHash: Hash, h: nat, i: nat)
    requires h < |chain|
    ensures Some(i) == FirstWith(Txs(body, chain[h]), txHash) <==>
      (ListedAt(chain, body, txHash, h, i) && forall j :: 0 <= j < i ==> !ListedAt(chain, body, txHash, h, j))
  {
    var r := FirstWith(Txs(body, chain[h]), txHash);
    if r.Some? { assert ListedAt(chain, body, txHash, h, r.value); }
  }

  /**
   An account reaped by its own transaction: the nonce never passes 3, and the search still settles on the
   block that holds the transaction.
   */
  lemma ReapedAccountIsFound()
    returns (chain: seq<Hash>, body: map<Hash, seq<Tx>>, nonces: map<Hash, U32>)
    ensures CountsOrReaped(chain, body, nonces, 1) && !NeverReaped(chain, body, nonces, 1)
    ensures NotPassed(chain, nonces, 3, 0, |chain|)
    ensures FirstHit(chain, Settles(body, nonces, 7, 3), 1, BlockInfo(11, 1))
  {
    var first, second := [Tx(1, Some(1), 0), Tx(2, Some(1), 1), Tx(3, Some(1), 2)], [Tx(7, Some(1), 3)];
    chain := [10, 11];
    body := map[10 := first, 11 := second];
    nonces := map[10 := 3];
    SignedThree(first[0], first[1], first[2]);
    assert second[..0] == [] && Signed(second, 1) == 1;
    assert Txs(body, 10) == first && Txs(body, 11) == second;
    hide Signed, Settles, Txs;
    assert NonceAt(nonces, chain[1]) == 0 && NonceBefore(chain, nonces, 1) == 3;
    SettlesIff(body, nonces, 7, 3, 11);
    assert body[11][0].hash == 7;
  }

  lemma SignedThree(a: Tx, b: Tx, c: Tx)
    requires a.signer == b.signer == c.signer == Some(1)
    ensures var txs := [a, b, c];
      Signed(txs, 1) == 3 && Signed(txs[..0], 1) == 0 && Signed(txs[..1], 1) == 1 && Signed(txs[..2], 1) == 2
  {
    var txs := [a, b, c];
    assert Signed(txs[..1], 1) == Signed(txs[..1][..0], 1) + 1 && txs[..1][..0] == [];
    assert Signed(txs[..2], 1) == Signed(txs[..2][..1], 1) + 1 && txs[..2][..1] == txs[..1];
    assert Signed(txs, 1) == Signed(txs[..2], 1) + 1;
  }
}
