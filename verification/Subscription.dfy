/**
 Block subscriptions: the finalised cursor, the best-block cursor, and the lazy wrapper that
 turns into one of them on first use.
 */
module Subscription {
  import opened Prelude
  import opened Rpc

  // ---------------------------------------------------------------- the abstract cursor

  /** Where iteration stands: the height `next` delivers, and whether a block was delivered there. */
  datatype Cursor = Cursor(at: U32, emitted: bool)

  /** Where `prev` moves the cursor before it fetches; stops at the genesis block. */
  function PrevTarget(c: Cursor): Cursor {
    Cursor(SaturatingSub(c.at, if c.emitted then 2 else 1), false)
  }

  /** One `next` of the abstract cursor over a fixed chain: deliver the block there, or stay. */
  ghost predicate NextStep(chain: seq<Hash>, c: Cursor, r: Result<BlockInfo>, c': Cursor) {
    match r
    case Ok(info) => c.at < |chain| && info == BlockInfo(chain[c.at], c.at) && c'.emitted && c'.at == c.at + 1
    case Err(_) => c' == c
  }

  /**
   How long such a call takes: at most three RPCs once the finalised chain has reached the height, and
   it is answered by the block, finalised by then, unless the last of them was not.
   */
  ghost predicate CursorPace(run: seq<Moment>, from: nat, to: nat, c: Cursor, r: Result<BlockInfo>) {
    Asked(run, from, to, r.Ok?) && Pending(run, from, to - 3, c.at) && (r.Ok? ==> c.at < |FinalizedBy(run, to)|)
  }

  // ---------------------------------------------------------------- finalised blocks

  class FinalizedBlockSub {
    const node: Node
    var nextBlockHeight: U32
    var latestFinalizedHeight: Option<U32>
    var processedPreviousBlock: bool

    ghost predicate Valid()
      reads this, node
    {
      && Sane(node.run) && AppendOnly(node.run)
      && (latestFinalizedHeight.Some? ==> SeenAsHead(node.run, 0, node.now, false, latestFinalizedHeight.value))
    }

    ghost function View(): Cursor
      reads this
    {
      Cursor(nextBlockHeight, processedPreviousBlock)
    }

    constructor (node: Node, height: U32)
      requires Sane(node.run) && AppendOnly(node.run)
      ensures Valid() && this.node == node && View() == Cursor(height, false)
    {
      this.node := node;
      nextBlockHeight := height;
      latestFinalizedHeight := None;
      processedPreviousBlock := false;
    }

    method Next() returns (r: Result<BlockInfo>)
      requires Valid()
      modifies this, node
      ensures Valid() && old(node.now) <= node.now
      ensures NextStep(Chain(node.run), old(View()), r, View())
      ensures CursorPace(node.run, old(node.now), node.now, old(View()), r)
    {
      hide AppendOnly, Sane, Asked, Answered, Pending, Up, SeenAsHead;
      ghost var from, run := node.now, node.run;
      var latest := FetchLatestFinalizedHeight();
      if latest.Err? {
        AskedOnce(run, from, nextBlockHeight);
        return Err(latest.error);
      }
      ghost var mid := node.now;
      if latest.value > nextBlockHeight {
        r := RunHistorical();
        AskedOnce(run, mid, nextBlockHeight);
      } else {
        r := RunHead();
      }
      AskedAfter(run, from, mid, node.now, nextBlockHeight, r.Ok?);
      if r.Err? { return; }
      FinalizedGrows(run, node.now, node.now);
      HeightsFit(run, node.now);
      nextBlockHeight := r.value.height + 1;
      processedPreviousBlock := true;
    }

    /** A failed `Prev` has already moved the cursor: the next `Next` delivers the block it wanted. */
    method Prev() returns (r: Result<BlockInfo>)
      requires Valid()
      modifies this, node
      ensures Valid() && old(node.now) <= node.now
      ensures NextStep(Chain(node.run), PrevTarget(old(View())), r, View())
      ensures CursorPace(node.run, old(node.now), node.now, PrevTarget(old(View())), r)
    {
      nextBlockHeight := SaturatingSub(nextBlockHeight, 1);
      if processedPreviousBlock {
        nextBlockHeight := SaturatingSub(nextBlockHeight, 1);
      }
      processedPreviousBlock := false;
      r := Next();
    }

    method SetBlockHeight(height: U32)
      requires Valid()
      modifies this
      ensures Valid() && View() == Cursor(height, false)
    {
      nextBlockHeight := height;
      processedPreviousBlock := false;
    }

    method FetchLatestFinalizedHeight() returns (r: Result<U32>)
      requires Valid()
      modifies this`latestFinalizedHeight, node
      ensures Valid() && old(node.now) <= node.now
      ensures r.Ok? ==> latestFinalizedHeight == Some(r.value)
      ensures r.Err? ==> latestFinalizedHeight == old(latestFinalizedHeight)
      ensures match old(latestFinalizedHeight)
        case Some(height) => r == Ok(height) && node.now == old(node.now)
        case None =>
          && node.now == old(node.now) + 1
          && (r.Ok? <==> Up(node.run, old(node.now)))
          && (r.Ok? ==> HeadAt(node.run, old(node.now), false, r.value))
    {
      if latestFinalizedHeight.Some? { return Ok(latestFinalizedHeight.value); }
      var head := node.HeadInfo(false);
      if head.Err? { return Err(head.error); }
      latestFinalizedHeight := Some(head.value.height);
      assert HeadAt(node.run, old(node.now), false, head.value.height);
      r := Ok(head.value.height);
    }

    /** Below the cached finalised height the hash is simply looked up. */
    method RunHistorical() returns (r: Result<BlockInfo>)
      requires Valid() && latestFinalizedHeight.Some? && nextBlockHeight < latestFinalizedHeight.value
      modifies node
      ensures Valid() && node.now == old(node.now) + 1
      ensures r.Ok? ==> Delivered(r.value)
      ensures r.Ok? <==> Up(node.run, old(node.now))
    {
      SeenIsFinalized(node.run, node.now, latestFinalizedHeight.value);
      FinalizedGrows(node.run, node.now, node.now + 1);
      var hash := node.BlockHash(nextBlockHeight);
      if hash.Err? { return Err(hash.error); }
      if hash.value.None? { return Err(ExpectedData); }
      r := Ok(BlockInfo(hash.value.value, nextBlockHeight));
    }

    /** Polls until the finalised head reaches the cursor. */
    method RunHead() returns (r: Result<BlockInfo>)
      requires Valid()
      modifies node
      ensures Valid() && old(node.now) < node.now
      ensures r.Ok? ==> Delivered(r.value)
      ensures Asked(node.run, old(node.now), node.now, r.Ok?)
      ensures Pending(node.run, old(node.now), node.now - 2, nextBlockHeight)
    {
      hide AppendOnly, Sane;
      while true
        invariant Valid() && old(node.now) <= node.now
        invariant Answered(node.run, old(node.now), node.now)
        invariant Pending(node.run, old(node.now), node.now, nextBlockHeight)
        decreases |node.run| - node.now
      {
        ghost var t := node.now;
        FinalizedGrows(node.run, t, t + 1);
        FinalizedGrows(node.run, t + 1, t + 2);
        var head := node.HeadInfo(false);
        if head.Err? { return Err(head.error); }
        if nextBlockHeight > head.value.height { continue; }
        if nextBlockHeight == head.value.height { return head; }
        var hash := node.BlockHash(nextBlockHeight);
        if hash.Err? { return Err(hash.error); }
        BestBelowFinality(node.run, t + 1, nextBlockHeight);
        if hash.value.None? { return Err(ExpectedData); }
        return Ok(BlockInfo(hash.value.value, nextBlockHeight));
      }
    }

    /** `info` is the finalised block at the cursor. */
    ghost predicate Delivered(info: BlockInfo)
      reads this, node
    {
      var chain := FinalizedBy(node.run, node.now);
      nextBlockHeight < |chain| && info == BlockInfo(chain[nextBlockHeight], nextBlockHeight)
    }
  }

  // ---------------------------------------------------------------- best blocks

  /** The best-block cursor: a height, and the hashes already delivered at that height. */
  datatype Tip = Tip(height: U32, processed: seq<Hash>)

  /** One `next` of the best-block cursor, whatever the node's best chain did meanwhile. */
  ghost predicate BestStep(s: Tip, r: Result<BlockInfo>, s': Tip) {
    match r
    case Err(_) => s' == s
    case Ok(info) =>
      && (info.height == s.height || (s.processed != [] && info.height == s.height + 1))
      && (info.height == s.height ==> info.hash !in s.processed)
      && s'.height == info.height
      && s'.processed == (if info.height == s.height then s.processed + [info.hash] else [info.hash])
  }

  /** Where the height of the next block may be looked up: at the cursor, or above it once a block was delivered. */
  function TipTarget(s: Tip): nat { s.height + if s.processed == [] then 0 else 1 }

  /** Throughout [from, to) the best head was below the cursor or one already delivered. */
  ghost predicate Idle(run: seq<Moment>, from: nat, to: int, s: Tip) {
    forall t: nat :: from <= t < to && t < |run| && run[t].best != [] ==>
      |run[t].best| <= s.height || run[t].best[|run[t].best| - 1] in s.processed
  }

  /** The last RPC was answered, but by then the best chain no longer reached the height it asked for. */
  ghost predicate Receded(run: seq<Moment>, from: nat, to: nat, s: Tip) {
    from < to && Answered(run, from, to - 1) && Up(run, to - 1) && |run[to - 1].best| <= TipTarget(s)
  }

  /**
   How long such a call takes: after the first RPC, at most two more once the head is one that can be
   delivered. It fails when the last RPC is not answered, or comes too late for a chain that receded.
   */
  ghost predicate TipPace(run: seq<Moment>, from: nat, to: nat, s: Tip, r: Result<BlockInfo>) {
    && Idle(run, from + 1, to - 2, s)
    && (Asked(run, from, to, r.Ok?) || (r.Err? && Receded(run, from, to, s)))
  }

  function TipPrevTarget(s: Tip): Tip { Tip(SaturatingSub(s.height, 1), []) }

  class BestBlockSub {
    const node: Node
    var currentBlockHeight: U32
    var blockProcessed: seq<Hash>
    var latestFinalizedHeight: Option<U32>

    ghost predicate Valid()
      reads this, node
    {
      && Sane(node.run)
      && (blockProcessed != [] ==> currentBlockHeight < U32_MAX)
      && (latestFinalizedHeight.Some? ==> SeenAsHead(node.run, 0, node.now, false, latestFinalizedHeight.value))
    }

    ghost function View(): Tip
      reads this
    {
      Tip(currentBlockHeight, blockProcessed)
    }

    constructor (node: Node, height: U32)
      requires Sane(node.run)
      ensures Valid() && this.node == node && View() == Tip(height, [])
    {
      this.node := node;
      currentBlockHeight := height;
      blockProcessed := [];
      latestFinalizedHeight := None;
    }

    /** Nothing is assumed of the node's chains, except to say that only a failed RPC is an error. */
    method Next() returns (r: Result<BlockInfo>)
      requires Valid()
      modifies this, node
      ensures Valid() && old(node.now) <= node.now
      ensures BestStep(old(View()), r, View())
      ensures TipPace(node.run, old(node.now), node.now, old(View()), r)
      ensures r.Ok? ==> SeenOnBest(node.run, old(node.now), node.now, r.value)
      ensures r.Err? && ForkFree(node.run) ==> Asked(node.run, old(node.now), node.now, false)
    {
      var latest := FetchLatestFinalizedHeight();
      if latest.Err? { return Err(latest.error); }
      if latest.value > currentBlockHeight {
        r := RunHistorical();
        if r.Err? { return; }
        blockProcessed := [r.value.hash];
        currentBlockHeight := r.value.height;
        return;
      }
      r := RunHead();
      if r.Err? { return; }
      if r.value.height == currentBlockHeight {
        blockProcessed := blockProcessed + [r.value.hash];
      } else {
        blockProcessed := [r.value.hash];
        currentBlockHeight := r.value.height;
      }
    }

    method Prev() returns (r: Result<BlockInfo>)
      requires Valid()
      modifies this, node
      ensures Valid() && old(node.now) <= node.now
      ensures BestStep(TipPrevTarget(old(View())), r, View())
      ensures TipPace(node.run, old(node.now), node.now, TipPrevTarget(old(View())), r)
      ensures r.Ok? ==> SeenOnBest(node.run, old(node.now), node.now, r.value)
      ensures r.Err? && ForkFree(node.run) ==> Asked(node.run, old(node.now), node.now, false)
    {
      currentBlockHeight := SaturatingSub(currentBlockHeight, 1);
      blockProcessed := [];
      r := Next();
    }

    method SetBlockHeight(height: U32)
      requires Valid()
      modifies this
      ensures Valid() && View() == Tip(height, [])
    {
      currentBlockHeight := height;
      blockProcessed := [];
    }

    method FetchLatestFinalizedHeight() returns (r: Result<U32>)
      requires Valid()
      modifies this`latestFinalizedHeight, node
      ensures Valid() && old(node.now) <= node.now
      ensures r.Ok? ==> latestFinalizedHeight == Some(r.value)
      ensures r.Err? ==> latestFinalizedHeight == old(latestFinalizedHeight)
      ensures match old(latestFinalizedHeight)
        case Some(height) => r == Ok(height) && node.now == old(node.now)
        case None =>
          && node.now == old(node.now) + 1
          && (r.Ok? <==> Up(node.run, old(node.now)))
          && (r.Ok? ==> HeadAt(node.run, old(node.now), false, r.value))
    {
      if latestFinalizedHeight.Some? { return Ok(latestFinalizedHeight.value); }
      var head := node.HeadInfo(false);
      if head.Err? { return Err(head.error); }
      latestFinalizedHeight := Some(head.value.height);
      assert HeadAt(node.run, old(node.now), false, head.value.height);
      r := Ok(head.value.height);
    }

    method RunHistorical() returns (r: Result<BlockInfo>)
      requires Valid() && latestFinalizedHeight.Some? && currentBlockHeight < latestFinalizedHeight.value
      modifies node
      ensures Valid() && node.now == old(node.now) + 1
      ensures r.Ok? ==> r.value.height == currentBlockHeight + if blockProcessed == [] then 0 else 1
      ensures r.Ok? ==> SeenOnBest(node.run, old(node.now), node.now, r.value)
      ensures
        || Asked(node.run, old(node.now), node.now, r.Ok?)
        || (r.Err? && Receded(node.run, old(node.now), node.now, View()))
      ensures r.Err? && ForkFree(node.run) ==> Asked(node.run, old(node.now), node.now, false)
    {
      if ForkFree(node.run) { SeenIsFinalized(node.run, node.now, latestFinalizedHeight.value); }
      var height := currentBlockHeight;
      if blockProcessed != [] { height := height + 1; }
      ghost var t := node.now;
      var hash := node.BlockHash(height);
      if hash.Err? { return Err(hash.error); }
      if hash.value.None? { return Err(ExpectedData); }
      r := Ok(BlockInfo(hash.value.value, height));
      assert Up(node.run, t);
    }

    /** Polls until the best head is one not delivered yet, then delivers it or the block below it. */
    method RunHead() returns (r: Result<BlockInfo>)
      requires Valid()
      modifies node
      ensures Valid() && old(node.now) <= node.now
      ensures r.Ok? ==>
        && (r.value.height == currentBlockHeight || (blockProcessed != [] && r.value.height == currentBlockHeight + 1))
        && (r.value.height == currentBlockHeight ==> r.value.hash !in blockProcessed)
        && SeenOnBest(node.run, old(node.now), node.now, r.value)
      ensures Idle(node.run, old(node.now), node.now - 2, View())
      ensures
        || Asked(node.run, old(node.now), node.now, r.Ok?)
        || (r.Err? && Receded(node.run, old(node.now), node.now, View()))
      ensures r.Err? && ForkFree(node.run) ==> Asked(node.run, old(node.now), node.now, false)
    {
      while true
        invariant Valid() && old(node.now) <= node.now
        invariant Answered(node.run, old(node.now), node.now)
        invariant Idle(node.run, old(node.now), node.now, View())
        decreases |node.run| - node.now
      {
        ghost var t := node.now;
        var head := node.HeadInfo(true);
        if head.Err? { return Err(head.error); }
        assert Up(node.run, t);
        if currentBlockHeight > head.value.height || head.value.hash in blockProcessed { continue; }
        var isCurrent, isNext := currentBlockHeight == head.value.height, currentBlockHeight + 1 == head.value.height;
        if blockProcessed != [] && (isCurrent || isNext) {
          return head;
        }
        var height := if blockProcessed == [] then currentBlockHeight else currentBlockHeight + 1;
        var hash := node.BlockHash(height);
        if hash.Err? { return Err(hash.error); }
        assert Up(node.run, t + 1);
        if hash.value.None? { return Err(ExpectedData); }
        return Ok(BlockInfo(hash.value.value, height));
      }
    }
  }

  // ---------------------------------------------------------------- the lazy wrapper

  datatype Kind =
    | UnInit(useBest: bool, height: Option<U32>)
    | BestBlock(best: BestBlockSub)
    | FinalizedBlock(finalized: FinalizedBlockSub)

  /** What a subscription's next answer depends on; `Unset` starts wherever the head turns out to be. */
  datatype SubView = Unset(best: bool) | AtCursor(cursor: Cursor) | AtTip(tip: Tip)

  function Opened(best: bool, height: U32): SubView {
    if best then AtTip(Tip(height, [])) else AtCursor(Cursor(height, false))
  }

  function Back(v: SubView): SubView {
    match v
    case Unset(_) => v
    case AtCursor(c) => AtCursor(PrevTarget(c))
    case AtTip(s) => AtTip(TipPrevTarget(s))
  }

  ghost predicate OpenStep(run: seq<Moment>, from: nat, to: nat, v: SubView, r: Result<BlockInfo>, v': SubView)
    requires !v.Unset?
  {
    match v
    case AtCursor(c) => v'.AtCursor? && NextStep(Chain(run), c, r, v'.cursor) && CursorPace(run, from, to, c, r)
    case AtTip(s) => v'.AtTip? && BestStep(s, r, v'.tip) && TipPace(run, from, to, s, r)
  }

  /**
   A call made in the window [from, to); with `back` set it is `prev`. Without a height its first RPC
   asks for the head, which is where it starts.
   */
  ghost predicate SubStep(run: seq<Moment>, from: nat, to: nat, back: bool,
                          v: SubView, r: Result<BlockInfo>, v': SubView)
  {
    if v.Unset? then
      || (Asked(run, from, to, false) && to == from + 1 && r.Err? && v' == v)
      || (exists h: U32 :: HeadAt(run, from, v.best, h)
                        && var start := Opened(v.best, h);
                           OpenStep(run, from + 1, to, if back then Back(start) else start, r, v'))
    else
      OpenStep(run, from, to, if back then Back(v) else v, r, v')
  }

  class Sub {
    const node: Node
    var kind: Kind

    ghost function Footprint(): set<object>
      reads this
    {
      {this, node} + if kind.BestBlock? then {kind.best} else if kind.FinalizedBlock? then {kind.finalized} else {}
    }

    ghost predicate Valid()
      reads this, Footprint()
    {
      && Sane(node.run) && AppendOnly(node.run)
      && (kind.BestBlock? ==> kind.best.node == node && kind.best.Valid())
      && (kind.FinalizedBlock? ==> kind.finalized.node == node && kind.finalized.Valid())
    }

    ghost function View(): SubView
      reads this, Footprint()
    {
      match kind
      case UnInit(best, height) => if height.Some? then Opened(best, height.value) else Unset(best)
      case BestBlock(s) => AtTip(s.View())
      case FinalizedBlock(s) => AtCursor(s.View())
    }

    constructor (node: Node)
      requires Sane(node.run) && AppendOnly(node.run)
      ensures Valid() && this.node == node && kind == UnInit(false, None) && fresh(Footprint() - {node})
    {
      this.node := node;
      kind := UnInit(false, None);
    }

    method Next() returns (r: Result<BlockInfo>)
      requires Valid()
      modifies Footprint()
      ensures Valid() && fresh(Footprint() - old(Footprint())) && old(node.now) <= node.now
      ensures SubStep(node.run, old(node.now), node.now, false, old(View()), r, View())
      ensures Promise(old(node.now), r) && IsBest() == old(IsBest())
    {
      if kind.UnInit? {
        var built := Build();
        if built.Err? { return Err(built.error); }
      }
      r := NextOpen();
    }

    method Prev() returns (r: Result<BlockInfo>)
      requires Valid()
      modifies Footprint()
      ensures Valid() && fresh(Footprint() - old(Footprint())) && old(node.now) <= node.now
      ensures SubStep(node.run, old(node.now), node.now, true, old(View()), r, View())
      ensures Promise(old(node.now), r) && IsBest() == old(IsBest())
    {
      if kind.UnInit? {
        var built := Build();
        if built.Err? { return Err(built.error); }
      }
      r := PrevOpen();
    }

    /** Chooses the concrete subscription, asking for the head only when no height was set. */
    method Build() returns (r: Result<()>)
      requires Valid() && kind.UnInit?
      modifies this, node
      ensures Valid() && fresh(Footprint() - {this, node}) && old(node.now) <= node.now
      ensures r.Err? ==> kind == old(kind) && !Up(node.run, old(node.now))
      ensures r.Ok? ==> !kind.UnInit? && (kind.BestBlock? <==> old(kind.useBest))
      ensures old(kind.height).Some? ==> r.Ok? && node.now == old(node.now) && View() == old(View())
      ensures old(kind.height).None? ==> node.now == old(node.now) + 1
      ensures r.Ok? && old(kind.height).None? ==>
        exists h: U32 :: HeadAt(node.run, old(node.now), old(kind.useBest), h)
                      && View() == Opened(old(kind.useBest), h)
    {
      var height: U32;
      if kind.height.Some? {
        height := kind.height.value;
      } else {
        ghost var t := node.now;
        var head := node.HeadInfo(kind.useBest);
        if head.Err? { return Err(head.error); }
        height := head.value.height;
        assert HeadAt(node.run, t, kind.useBest, height);
      }
      if kind.useBest {
        var s := new BestBlockSub(node, height);
        kind := BestBlock(s);
      } else {
        var s := new FinalizedBlockSub(node, height);
        kind := FinalizedBlock(s);
      }
      assert View() == Opened(old(kind.useBest), height);
      r := Ok(());
    }

    method NextOpen() returns (r: Result<BlockInfo>)
      requires Valid() && !kind.UnInit?
      modifies Footprint()
      ensures Valid() && kind == old(kind) && old(node.now) <= node.now
      ensures OpenStep(node.run, old(node.now), node.now, old(View()), r, View())
      ensures Promise(old(node.now), r)
    {
      match kind {
        case BestBlock(s) => r := s.Next();
        case FinalizedBlock(s) => r := s.Next();
      }
    }

    method PrevOpen() returns (r: Result<BlockInfo>)
      requires Valid() && !kind.UnInit?
      modifies Footprint()
      ensures Valid() && kind == old(kind) && old(node.now) <= node.now
      ensures OpenStep(node.run, old(node.now), node.now, Back(old(View())), r, View())
      ensures Promise(old(node.now), r)
    {
      match kind {
        case BestBlock(s) => r := s.Prev();
        case FinalizedBlock(s) => r := s.Prev();
      }
    }

    /** An RPC made through the subscription's client; the cursor does not notice. */
    method Query<T>(hash: Hash, known: map<Hash, T>) returns (r: Result<Option<T>>)
      requires Valid()
      modifies node
      ensures Valid() && View() == old(View()) && node.now == old(node.now) + 1
      ensures r == if Up(node.run, old(node.now)) then Ok(Lookup(known, hash)) else Err(RpcFailed)
    {
      FinalizedGrows(node.run, node.now, node.now + 1);
      r := node.Query(hash, known);
    }

    method QueryAt<T>(height: U32, known: map<Hash, T>) returns (r: Result<Option<T>>)
      requires Valid()
      modifies node
      ensures Valid() && View() == old(View()) && node.now == old(node.now) + 1
      ensures r.Ok? ==> Up(node.run, old(node.now))
      ensures Up(node.run, old(node.now)) ==>
        var chain := node.run[old(node.now)].best;
        r == if height < |chain| then Ok(Lookup(known, chain[height])) else Err(ExpectedData)
      ensures Up(node.run, old(node.now)) && height < |FinalizedBy(node.run, old(node.now))| ==>
        height < |Chain(node.run)| && r == Ok(Lookup(known, Chain(node.run)[height]))
    {
      FinalizedGrows(node.run, node.now, node.now + 1);
      r := node.QueryAt(height, known);
    }

    method UseBestBlock(value: bool)
      requires Valid()
      modifies this
      ensures Valid() && Footprint() == old(Footprint())
      ensures kind == if old(kind).UnInit? then old(kind).(useBest := value) else old(kind)
    {
      if kind.UnInit? { kind := kind.(useBest := value); }
    }

    /** Jumps the cursor, forgetting whether anything was delivered there. */
    method SetBlockHeight(height: U32)
      requires Valid()
      modifies Footprint()
      ensures Valid() && Footprint() == old(Footprint()) && node.now == old(node.now)
      ensures View() == Opened(old(IsBest()), height) && IsBest() == old(IsBest())
    {
      match kind {
        case UnInit(_, _) => kind := kind.(height := Some(height));
        case BestBlock(s) => s.SetBlockHeight(height);
        case FinalizedBlock(s) => s.SetBlockHeight(height);
      }
    }

    ghost predicate IsBest()
      reads this
    {
      kind.BestBlock? || (kind.UnInit? && kind.useBest)
    }

    /** What `Next` and `Prev` say of their answer beyond where it leaves the cursor. */
    ghost predicate Promise(from: nat, r: Result<BlockInfo>)
      reads this, node
    {
      && from < node.now && Answered(node.run, from, node.now - 1)
      && (r.Ok? && kind.BestBlock? ==> SeenOnBest(node.run, from, node.now, r.value))
      && (r.Ok? && kind.FinalizedBlock? ==> r.value.height < |FinalizedBy(node.run, node.now)|)
      && (r.Ok? ==> Up(node.run, node.now - 1))
      && (!kind.BestBlock? || ForkFree(node.run) ==> Asked(node.run, from, node.now, r.Ok?))
    }
  }
}
