/**
 Whole runs of the block subscriptions. A run is any sequence of calls related step by step by
 what `FinalizedBlockSub` and `BestBlockSub` ensure of each call.
 */
module SubscriptionRuns {
  import opened Prelude
  import opened Rpc
  import opened Subscription

  // ---------------------------------------------------------------- best blocks under reorgs

  ghost predicate OnSomeBest(run: seq<Moment>, info: BlockInfo) {
    exists t :: 0 <= t < |run| && info.height < |run[t].best| && run[t].best[info.height] == info.hash
  }

  /** A block hash determines its height. */
  ghost predicate HashFixesHeight(run: seq<Moment>) {
    forall a: BlockInfo, b: BlockInfo ::
      OnSomeBest(run, a) && OnSomeBest(run, b) && a.hash == b.hash ==> a.height == b.height
  }

  /** Successive `next` calls: tips[i] is the state before call i, results[i] its answer. */
  ghost predicate BestRun(run: seq<Moment>, tips: seq<Tip>, results: seq<Result<BlockInfo>>) {
    && |tips| == |results| + 1
    && (forall i :: 0 <= i < |results| ==> BestStep(tips[i], results[i], tips[i + 1]))
    && (forall i :: 0 <= i < |results| ==> results[i].Ok? ==> OnSomeBest(run, results[i].value))
  }

  function Delivered(results: seq<Result<BlockInfo>>): seq<BlockInfo> {
    if results == [] then []
    else
      var last := results[|results| - 1];
      Delivered(results[..|results| - 1]) + if last.Ok? then [last.value] else []
  }

  function HashesAt(blocks: seq<BlockInfo>, height: nat): seq<Hash> {
    if blocks == [] then []
    else
      var last := blocks[|blocks| - 1];
      HashesAt(blocks[..|blocks| - 1], height) + if last.height == height then [last.hash] else []
  }

  /** Heights start at `start` and never skip: each block is at the height of the last or one above. */
  ghost predicate NoGap(blocks: seq<BlockInfo>, start: nat) {
    && (blocks != [] ==> blocks[0].height == start)
    && (forall i :: 0 < i < |blocks| ==> blocks[i - 1].height <= blocks[i].height <= blocks[i - 1].height + 1)
  }

  ghost predicate NoRepeat(blocks: seq<BlockInfo>) {
    forall i, j :: 0 <= i < j < |blocks| ==> blocks[i].hash != blocks[j].hash
  }

  lemma HashesAtContains(blocks: seq<BlockInfo>, height: nat, i: nat)
    requires i < |blocks| && blocks[i].height == height
    ensures blocks[i].hash in HashesAt(blocks, height)
  {
    if i == |blocks| - 1 {
    } else {
      HashesAtContains(blocks[..|blocks| - 1], height, i);
    }
  }

  lemma HashesAboveAll(blocks: seq<BlockInfo>, height: nat)
    requires forall i :: 0 <= i < |blocks| ==> blocks[i].height < height
    ensures HashesAt(blocks, height) == []
  {
    if blocks == [] {
    } else {
      HashesAboveAll(blocks[..|blocks| - 1], height);
    }
  }

  /** How the tip and everything delivered so far hang together. */
  ghost predicate TipMatches(blocks: seq<BlockInfo>, start: nat, s: Tip) {
    && s.processed == HashesAt(blocks, s.height)
    && s.height == (if blocks == [] then start else blocks[|blocks| - 1].height)
    && (forall i :: 0 <= i < |blocks| ==> blocks[i].height <= s.height)
  }

  lemma DeliveredBlockIsNew(run: seq<Moment>, blocks: seq<BlockInfo>, start: nat, s: Tip, info: BlockInfo, s': Tip)
    requires HashFixesHeight(run) && OnSomeBest(run, info)
    requires forall i :: 0 <= i < |blocks| ==> OnSomeBest(run, blocks[i])
    requires TipMatches(blocks, start, s) && BestStep(s, Ok(info), s')
    ensures forall i :: 0 <= i < |blocks| ==> blocks[i].hash != info.hash
  {
    forall i | 0 <= i < |blocks|
      ensures blocks[i].hash != info.hash
    {
      if blocks[i].height == info.height { HashesAtContains(blocks, info.height, i); }
    }
  }

  lemma TipMatchesStep(blocks: seq<BlockInfo>, start: nat, s: Tip, info: BlockInfo, s': Tip)
    requires TipMatches(blocks, start, s) && NoGap(blocks, start) && BestStep(s, Ok(info), s')
    requires blocks == [] ==> s.processed == []
    ensures TipMatches(blocks + [info], start, s') && NoGap(blocks + [info], start)
  {
    assert (blocks + [info])[..|blocks|] == blocks;
    if info.height != s.height { HashesAboveAll(blocks, info.height); }
  }

  ghost predicate GapFree(run: seq<Moment>, blocks: seq<BlockInfo>, start: nat, s: Tip) {
    && NoGap(blocks, start)
    && NoRepeat(blocks)
    && TipMatches(blocks, start, s)
    && (forall i :: 0 <= i < |blocks| ==> OnSomeBest(run, blocks[i]))
  }

  lemma GapFreeStep(run: seq<Moment>, blocks: seq<BlockInfo>, start: nat, s: Tip, info: BlockInfo, s': Tip)
    requires HashFixesHeight(run) && OnSomeBest(run, info)
    requires GapFree(run, blocks, start, s) && BestStep(s, Ok(info), s')
    ensures GapFree(run, blocks + [info], start, s')
  {
    DeliveredBlockIsNew(run, blocks, start, s, info, s');
    TipMatchesStep(blocks, start, s, info, s');
  }

  /**
   However the node's best chain reorganises and whichever calls fail, after any number n of calls
   no height was skipped, no block was delivered twice, and the processed list is exactly what was
   delivered at its height.
   */
  lemma {:induction false} BestRunIsGapFree(run: seq<Moment>, tips: seq<Tip>, results: seq<Result<BlockInfo>>, n: nat)
    requires HashFixesHeight(run) && BestRun(run, tips, results)
    requires tips[0].processed == [] && n <= |results|
    ensures GapFree(run, Delivered(results[..n]), tips[0].height, tips[n])
  {
    if n == 0 {
    } else {
      BestRunIsGapFree(run, tips, results, n - 1);
      assert results[..n][..n - 1] == results[..n - 1];
      assert BestStep(tips[n - 1], results[n - 1], tips[n]);
      if results[n - 1].Ok? {
        GapFreeStep(run, Delivered(results[..n - 1]), tips[0].height, tips[n - 1], results[n - 1].value, tips[n]);
      } else {
        assert Delivered(results[..n]) == Delivered(results[..n - 1]);
      }
    }
  }

  // ---------------------------------------------------------------- one cursor on a fork-free chain

  /** A call on a subscription together with its answer. */
  datatype Event = NextCall(result: Result<BlockInfo>) | PrevCall(result: Result<BlockInfo>) | Jump(height: U32)

  ghost predicate CursorEvent(chain: seq<Hash>, c: Cursor, e: Event, c': Cursor) {
    match e
    case NextCall(r) => NextStep(chain, c, r, c')
    case PrevCall(r) => NextStep(chain, PrevTarget(c), r, c')
    case Jump(h) => c' == Cursor(h, false)
  }

  ghost predicate TipEvent(run: seq<Moment>, s: Tip, e: Event, s': Tip) {
    match e
    case NextCall(r) => BestStep(s, r, s') && (r.Ok? ==> OnSomeBest(run, r.value))
    case PrevCall(r) => BestStep(TipPrevTarget(s), r, s') && (r.Ok? ==> OnSomeBest(run, r.value))
    case Jump(h) => s' == Tip(h, [])
  }

  ghost predicate CursorRun(chain: seq<Hash>, cursors: seq<Cursor>, events: seq<Event>) {
    |cursors| == |events| + 1 && forall i :: 0 <= i < |events| ==>
      CursorEvent(chain, cursors[i], events[i], cursors[i + 1])
  }

  ghost predicate TipRun(run: seq<Moment>, tips: seq<Tip>, events: seq<Event>) {
    |tips| == |events| + 1 && forall i :: 0 <= i < |events| ==> TipEvent(run, tips[i], events[i], tips[i + 1])
  }

  /** The same call, failing in both runs or in neither. */
  predicate SameCall(a: Event, b: Event) {
    match (a, b)
    case (NextCall(r), NextCall(q)) => r.Ok? == q.Ok?
    case (PrevCall(r), PrevCall(q)) => r.Ok? == q.Ok?
    case (Jump(h), Jump(k)) => h == k
    case _ => false
  }

  predicate SameAnswer(a: Event, b: Event) {
    && SameCall(a, b)
    && (!a.Jump? ==> !b.Jump? && (a.result.Ok? ==> b.result.Ok? && a.result.value == b.result.value))
  }

  /** On a fork-free chain a tip has delivered nothing, or exactly the chain's block at its height. */
  ghost predicate TipOnChain(chain: seq<Hash>, s: Tip) {
    s.processed == [] || (s.height < |chain| && s.processed == [chain[s.height]])
  }

  ghost function CursorOf(s: Tip): Cursor
    requires s.processed != [] ==> s.height < U32_MAX
  {
    if s.processed == [] then Cursor(s.height, false) else Cursor(s.height + 1, true)
  }

  lemma TipEventIsCursorEvent(run: seq<Moment>, s: Tip, e: Event, s': Tip)
    requires Sane(run) && ForkFree(run) && |run| > 0
    requires TipOnChain(BestChain(run), s) && TipEvent(run, s, e, s')
    ensures TipOnChain(BestChain(run), s')
    ensures CursorEvent(BestChain(run), CursorOf(s), e, CursorOf(s'))
  {
    var chain := BestChain(run);
    assert forall info :: OnSomeBest(run, info) ==> info.height < |chain| && chain[info.height] == info.hash;
  }

  /** The finalised chain is a prefix of the best one, so its steps are steps there too. */
  lemma CursorEventOnLongerChain(run: seq<Moment>, c: Cursor, e: Event, c': Cursor)
    requires AppendOnly(run) && CursorEvent(Chain(run), c, e, c')
    ensures CursorEvent(BestChain(run), c, e, c')
  {
  }

  lemma ForkFreeIsAppendOnly(run: seq<Moment>)
    requires ForkFree(run)
    ensures AppendOnly(run)
  {
  }

  /** The cursor is deterministic: the same call, failing or not, gives the same answer and leaves the same cursor. */
  lemma SameCallSameAnswer(chain: seq<Hash>, c: Cursor, e: Event, c1: Cursor, f: Event, c2: Cursor)
    requires CursorEvent(chain, c, e, c1) && CursorEvent(chain, c, f, c2) && SameCall(e, f)
    ensures SameAnswer(e, f) && c1 == c2
  {
  }

  /**
   On a fork-free chain the finalised and the best-block subscription are one cursor: whatever
   mix of calls is made and whichever of them fail, they answer alike and stand alike.
   */
  lemma {:induction false} SubscriptionsAgree(run: seq<Moment>, cursors: seq<Cursor>, finalized: seq<Event>,
                                              tips: seq<Tip>, best: seq<Event>)
    requires Sane(run) && ForkFree(run) && |run| > 0
    requires CursorRun(Chain(run), cursors, finalized) && TipRun(run, tips, best)
    requires tips[0].processed == [] && cursors[0] == Cursor(tips[0].height, false)
    requires |finalized| == |best| && forall i :: 0 <= i < |best| ==> SameCall(finalized[i], best[i])
    ensures forall i :: 0 <= i < |best| ==> SameAnswer(finalized[i], best[i])
    ensures var s := tips[|best|]; TipOnChain(BestChain(run), s) && cursors[|best|] == CursorOf(s)
  {
    hide CursorEvent, TipEvent, SameAnswer, ForkFree, Sane;
    if best == [] {
    } else {
      var n := |best| - 1;
      SubscriptionsAgree(run, cursors[..n + 1], finalized[..n], tips[..n + 1], best[..n]);
      assert forall i :: 0 <= i < n ==> finalized[..n][i] == finalized[i] && best[..n][i] == best[i];
      TipEventIsCursorEvent(run, tips[n], best[n], tips[n + 1]);
      ForkFreeIsAppendOnly(run);
      CursorEventOnLongerChain(run, cursors[n], finalized[n], cursors[n + 1]);
      SameCallSameAnswer(BestChain(run), cursors[n], finalized[n], cursors[n + 1], best[n], CursorOf(tips[n + 1]));
    }
  }

  // ---------------------------------------------------------------- failed prev

  /**
   Every failed `prev` costs one height: after k of them in a row, `next` delivers the block the
   last one wanted, not the block the first one did.
   */
  lemma {:induction false} FailedPrevsKeepMoving(chain: seq<Hash>, cursors: seq<Cursor>, events: seq<Event>,
                                                 info: BlockInfo, end: Cursor)
    requires CursorRun(chain, cursors, events) && events != []
    requires forall i :: 0 <= i < |events| ==> events[i].PrevCall? && events[i].result.Err?
    requires CursorEvent(chain, cursors[|events|], NextCall(Ok(info)), end)
    ensures info.height == SaturatingSub(cursors[0].at, |events| + if cursors[0].emitted then 1 else 0)
    ensures info.height < |chain| && info.hash == chain[info.height]
  {
    assert CursorEvent(chain, cursors[0], events[0], cursors[1]);
    if |events| == 1 {
    } else {
      FailedPrevsKeepMoving(chain, cursors[1..], events[1..], info, end);
    }
  }

  /** The same for best blocks, however the best chain reorganises: nothing was delivered at the new height. */
  lemma {:induction false} FailedBestPrevsKeepMoving(run: seq<Moment>, tips: seq<Tip>, events: seq<Event>,
                                                     info: BlockInfo, end: Tip)
    requires TipRun(run, tips, events) && events != []
    requires forall i :: 0 <= i < |events| ==> events[i].PrevCall? && events[i].result.Err?
    requires TipEvent(run, tips[|events|], NextCall(Ok(info)), end)
    ensures info.height == SaturatingSub(tips[0].height, |events|) && OnSomeBest(run, info)
  {
    assert TipEvent(run, tips[0], events[0], tips[1]);
    if |events| == 1 {
    } else {
      FailedBestPrevsKeepMoving(run, tips[1..], events[1..], info, end);
    }
  }

  /** A failed `prev` leaves the cursor where it was, as documented, only at a fresh genesis. */
  lemma FailedPrevKeepsPlaceIff(chain: seq<Hash>, c: Cursor, error: Error, c': Cursor)
    requires CursorEvent(chain, c, PrevCall(Err(error)), c')
    ensures c' == c <==> c == Cursor(0, false)
  {
  }

  lemma FailedBestPrevKeepsPlaceIff(run: seq<Moment>, s: Tip, error: Error, s': Tip)
    requires TipEvent(run, s, PrevCall(Err(error)), s')
    ensures s' == s <==> s == Tip(0, [])
  {
  }

  /** A failed `prev` repeated delivers the block the first one wanted exactly when that is the genesis block. */
  lemma RetriedPrevIsSameIff(chain: seq<Hash>, c: Cursor, error: Error, c1: Cursor, info: BlockInfo, c2: Cursor)
    requires CursorEvent(chain, c, PrevCall(Err(error)), c1) && CursorEvent(chain, c1, PrevCall(Ok(info)), c2)
    ensures info.height == PrevTarget(c).at <==> PrevTarget(c).at == 0
  {
  }

  lemma RetriedBestPrevIsSameIff(run: seq<Moment>, s: Tip, error: Error, s1: Tip, info: BlockInfo, s2: Tip)
    requires TipEvent(run, s, PrevCall(Err(error)), s1) && TipEvent(run, s1, PrevCall(Ok(info)), s2)
    ensures info.height == TipPrevTarget(s).height <==> TipPrevTarget(s).height == 0
  {
  }

  // ---------------------------------------------------------------- waits that end

  /**
   Once the finalised chain reaches the cursor and the next three RPCs are answered, the call is over
   and has delivered the block.
   */
  lemma ReachedHeightIsDelivered(run: seq<Moment>, from: nat, to: nat, c: Cursor, r: Result<BlockInfo>, t: nat)
    requires CursorPace(run, from, to, c, r)
    requires from <= t < |run| && c.at < |run[t].finalized| && Answered(run, from, t + 3)
    ensures r.Ok? && to <= t + 3
  {
    assert to - 3 <= t;
  }

  /** Once the best head is one not delivered yet, the call is over within two RPCs; only a receding chain fails it. */
  lemma NewHeadEndsWait(run: seq<Moment>, from: nat, to: nat, s: Tip, r: Result<BlockInfo>, t: nat)
    requires TipPace(run, from, to, s, r)
    requires from < t < |run| && s.height < |run[t].best| && run[t].best[|run[t].best| - 1] !in s.processed
    requires Answered(run, from, t + 2)
    ensures to <= t + 2 && (r.Ok? || (0 < to <= |run| && run[to - 1].up && |run[to - 1].best| <= s.height + 1))
  {
    assert to - 2 <= t;
  }
}
