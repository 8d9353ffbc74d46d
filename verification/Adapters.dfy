/**
 Subscriptions over block contents. Each drives a `Sub`, asks the node about the block it
 delivers, and rewinds the cursor when that second question fails.
 */
module Adapters {
  import opened Prelude
  import opened Rpc
  import opened Subscription

  /** The items of one block that match the configured options. */
  datatype Batch<+T> = Batch(list: seq<T>, height: U32, hash: Hash)

  /** What reading each block's matching items gives; None where one of them does not decode. */
  type Contents<T> = map<Hash, Option<seq<T>>>

  /** A block's matching items, if they can all be read; a block the node has nothing listed for has none. */
  function Matches<T>(select: Contents<T>, block: Hash): Option<seq<T>> {
    Lookup(select, block).GetOr(Some([]))
  }

  /** All listed items decoded, or None if one of them does not decode. */
  function Read<E, T>(decode: E -> Option<T>, items: seq<E>): Option<seq<T>> {
    if items == [] then Some([])
    else
      match (Read(decode, items[..|items| - 1]), decode(items[|items| - 1]))
      case (Some(before), Some(last)) => Some(before + [last])
      case _ => None
  }

  /** A block can be read exactly when each of its items can. */
  lemma {:induction false} ReadIff<E, T>(decode: E -> Option<T>, items: seq<E>)
    ensures Read(decode, items).Some? <==> forall i :: 0 <= i < |items| ==> decode(items[i]).Some?
    ensures Read(decode, items).Some? ==>
      && |Read(decode, items).value| == |items|
      && forall i :: 0 <= i < |items| ==> decode(items[i]) == Some(Read(decode, items).value[i])
  {
    if items == [] {
    } else {
      ReadIff(decode, items[..|items| - 1]);
    }
  }

  /** The block at a height can be read, or is not there yet. */
  ghost predicate ReadableAt<T>(chain: seq<Hash>, select: Contents<T>, h: nat) {
    h < |chain| ==> Matches(select, chain[h]).Some?
  }

  /** Every finalised block in [from, to) can be read, and none has a matching item. */
  ghost predicate Quiet<T>(chain: seq<Hash>, select: Contents<T>, from: nat, to: nat) {
    (from < to ==> to <= |chain|) && forall h :: from <= h < to ==> Matches(select, chain[h]) == Some([])
  }

  /** One call: the first block at or after `at` with matches, or an error that lost no match. */
  ghost predicate SkipStep<T>(chain: seq<Hash>, select: Contents<T>, at: nat, r: Result<Batch<T>>, at': nat) {
    match r
    case Ok(v) =>
      && at <= v.height < |chain| && Quiet(chain, select, at, v.height)
      && v.hash == chain[v.height] && Matches(select, v.hash) == Some(v.list) && v.list != []
      && at' == v.height + 1
    case Err(_) => at <= at' && Quiet(chain, select, at, at')
  }

  /** The height a call was last waiting for. */
  function LastAwaited<T>(r: Result<Batch<T>>, at': nat): nat { if r.Ok? then r.value.height else at' }

  /** As `Asked`, but a block that cannot be read fails the call as well. */
  ghost predicate AskedAndRead(run: seq<Moment>, from: nat, to: nat, ok: bool, readable: bool) {
    && from < to && Answered(run, from, to - 1)
    && (ok ==> Up(run, to - 1)) && (!ok && readable ==> !Up(run, to - 1))
  }

  /**
   How long a call that started at `at` takes: one RPC and four for each height up to the last awaited,
   counted from when that height was finalised. It is answered unless its last RPC was not, or the last
   block cannot be read.
   */
  ghost predicate SkipPace(run: seq<Moment>, from: nat, to: nat, at: nat, awaited: nat, ok: bool, readable: bool) {
    AskedAndRead(run, from, to, ok, readable) && Pending(run, from, to - 4 * (awaited - at + 1) - 1, awaited)
  }

  /** A call that started at height `at`. */
  ghost predicate SkipFrom<T>(run: seq<Moment>, select: Contents<T>, from: nat, to: nat,
                              at: nat, r: Result<Batch<T>>, v': SubView)
  {
    && v'.AtCursor? && SkipStep(Chain(run), select, at, r, v'.cursor.at)
    && (r.Ok? ==> r.value.height < |FinalizedBy(run, to)|)
    && var awaited := LastAwaited(r, v'.cursor.at);
       SkipPace(run, from, to, at, awaited, r.Ok?, ReadableAt(Chain(run), select, awaited))
  }

  /** The same for a subscription that may still have to find out where to start: at the head it sees first. */
  ghost predicate SkipView<T>(run: seq<Moment>, select: Contents<T>, from: nat, to: nat,
                              v: SubView, r: Result<Batch<T>>, v': SubView)
  {
    if v.AtCursor? then
      SkipFrom(run, select, from, to, v.cursor.at, r, v')
    else
      || (r.Err? && v' == v && Asked(run, from, to, false))
      || (exists h: U32 :: HeadAt(run, from, false, h) && SkipFrom(run, select, from, to, h, r, v'))
  }

  /** The loop state of `Next` in finalised mode: where it started, nothing matched since, and how long it took. */
  ghost predicate Skipping<T>(run: seq<Moment>, select: Contents<T>, from: nat, to: nat,
                              v: SubView, start: Option<U32>, v': SubView)
  {
    match start
    case None => v == v' == Unset(false) && from == to
    case Some(at) =>
      && (if v.AtCursor? then at == v.cursor.at else HeadAt(run, from, false, at))
      && v'.AtCursor? && at <= v'.cursor.at && Quiet(Chain(run), select, at, v'.cursor.at)
      && Answered(run, from, to) && Pending(run, from, to - 4 * (v'.cursor.at - at) - 1, v'.cursor.at - 1)
  }

  /** What the block subscription answered, where that left it, and when. */
  datatype Visit = Visit(info: Result<BlockInfo>, view: SubView, until: nat)

  /**
   One block asked about: the batch says what the block holds; an RPC that is not answered, or a block
   that cannot be read, leaves the block to be retried.
   */
  ghost predicate VisitStep<T>(run: seq<Moment>, select: Contents<T>, from: nat, to: nat,
                               v: SubView, visit: Visit, r: Result<Batch<T>>, v': SubView)
  {
    && SubStep(run, from, visit.until, false, v, visit.info, visit.view)
    && (match visit.info
        case Err(_) => r.Err? && v' == visit.view && to == visit.until
        case Ok(info) =>
          && to == visit.until + 1 && (r.Ok? <==> Up(run, visit.until) && Matches(select, info.hash).Some?)
          && if r.Err? then v' == Opened(visit.view.AtTip?, info.height)
             else v' == visit.view && r.value == Batch(Matches(select, info.hash).value, info.height, info.hash))
  }

  /** One more RPC after the block was delivered. */
  lemma AskedOneMore(run: seq<Moment>, from: nat, until: nat, first: bool, to: nat, ok: bool, readable: bool)
    requires Asked(run, from, until, first)
    requires if first then to == until + 1 && (ok <==> Up(run, until) && readable) else to == until && !ok
    ensures AskedAndRead(run, from, to, ok, readable) && (!first ==> Asked(run, from, to, false))
  {
  }

  /** A call that starts at the head it has just seen does not wait. */
  lemma SeenHeadNeedsNoWait(run: seq<Moment>, from: nat, until: nat, h: U32, r: Result<BlockInfo>)
    requires AppendOnly(run) && HeadAt(run, from, false, h)
    requires CursorPace(run, from + 1, until, Cursor(h, false), r)
    ensures Asked(run, from, until, r.Ok?) && until <= from + 4
  {
    assert Up(run, from + 1) ==> h < |run[from].finalized| <= |run[from + 1].finalized|;
  }

  /** What one visit takes, and where it started. */
  lemma VisitPace<T>(run: seq<Moment>, select: Contents<T>, from: nat, to: nat,
                     v: SubView, visit: Visit, r: Result<Batch<T>>, v': SubView) returns (at: Option<U32>)
    requires AppendOnly(run) && !v.AtTip? && (v.Unset? ==> v == Unset(false))
    requires VisitStep(run, select, from, to, v, visit, r, v')
    ensures at.None? ==> v.Unset? && v' == v && r.Err? && Asked(run, from, to, false)
    ensures at.Some? ==> AskedAndRead(run, from, to, r.Ok?, ReadableAt(Chain(run), select, at.value))
    ensures at.Some? && v.Unset? ==> HeadAt(run, from, false, at.value)
    ensures at.Some? && v.AtCursor? ==> at.value == v.cursor.at
    ensures at.Some? ==> v'.AtCursor? && Pending(run, from, to - if v.AtCursor? then 4 else 5, at.value)
    ensures at.Some? && r.Err? ==> v'.cursor.at == at.value
    ensures r.Ok? ==>
      && at.Some? && r.value.height == at.value < |FinalizedBy(run, to)| <= |Chain(run)|
      && v'.cursor.at == at.value + 1
      && r.value.hash == Chain(run)[at.value] && Matches(select, r.value.hash) == Some(r.value.list)
  {
    hide Asked, AskedAndRead, AppendOnly, Pending, Matches;
    FinalizedGrows(run, visit.until, to);
    if v.AtCursor? {
      at := Some(v.cursor.at);
    } else if visit.info.Err? && visit.view == v {
      at := None;
    } else {
      var h: U32 :|
        && HeadAt(run, from, false, h)
        && OpenStep(run, from + 1, visit.until, Opened(false, h), visit.info, visit.view);
      SeenHeadNeedsNoWait(run, from, visit.until, h, visit.info);
      NoWait(run, from, to - 5, h);
      at := Some(h);
    }
    var readable := at.None? || ReadableAt(Chain(run), select, at.value);
    AskedOneMore(run, from, visit.until, visit.info.Ok?, to, r.Ok?, readable);
    if at.Some? && v.AtCursor? { PendingShorter(run, from, visit.until - 3, to - 4, at.value); }
  }

  lemma NoWait(run: seq<Moment>, from: nat, to: int, height: int)
    requires to <= from
    ensures Pending(run, from, to, height)
  {
  }

  lemma PendingShorter(run: seq<Moment>, from: nat, later: int, to: int, height: int)
    requires to <= later && Pending(run, from, later, height)
    ensures Pending(run, from, to, height)
  {
  }

  /** One more height: the wait for it, behind everything before. */
  lemma SkipPaceStep(run: seq<Moment>, from: nat, mid: nat, to: nat, at: nat, awaited: nat, ok: bool, readable: bool)
    requires AppendOnly(run) && from <= mid && at <= awaited
    requires Answered(run, from, mid) && Pending(run, from, mid - 4 * (awaited - at) - 1, awaited - 1)
    requires AskedAndRead(run, mid, to, ok, readable) && Pending(run, mid, to - 4, awaited)
    ensures SkipPace(run, from, to, at, awaited, ok, readable)
  {
    if mid < to - 4 { assert Up(run, mid) && |run[mid].finalized| <= awaited; }
  }

  /** One visit in the loop of `Next`: either it goes on skipping, or it is the answer. */
  lemma StepKnown<T>(run: seq<Moment>, select: Contents<T>, from: nat, mid: nat, to: nat, v: SubView,
                     start: Option<U32>, v1: SubView, visit: Visit, r: Result<Batch<T>>, v2: SubView)
    returns (at: Option<U32>)
    requires AppendOnly(run) && from <= mid && Skipping(run, select, from, mid, v, start, v1)
    requires VisitStep(run, select, mid, to, v1, visit, r, v2)
    ensures r.Ok? && r.value.list == [] ==> Skipping(run, select, from, to, v, at, v2)
    ensures r.Err? || r.value.list != [] ==> SkipView(run, select, from, to, v, r, v2)
  {
    hide AppendOnly, VisitStep, Pending, Matches;
    at := VisitPace(run, select, mid, to, v1, visit, r, v2);
    if at.Some? {
      var awaited := at.value;
      if start.Some? {
        at := start;
        SkipPaceStep(run, from, mid, to, at.value, awaited, r.Ok?, ReadableAt(Chain(run), select, awaited));
      } else {
        assert to - 4 * (awaited - at.value + 1) - 1 == to - 5;
      }
    }
  }

  /** One turn of the loop of `Next`: when and where it began, and what it answered. */
  datatype Turn<+T> = Turn(from: nat, view: SubView, visit: Visit, answer: Result<Batch<T>>)

  /** The instant and the view turn i begins with; past the last turn, those the call ends with. */
  function BeginsAt<T>(turns: seq<Turn<T>>, to: nat, i: nat): nat { if i < |turns| then turns[i].from else to }

  function BeginsWith<T>(turns: seq<Turn<T>>, v': SubView, i: nat): SubView {
    if i < |turns| then turns[i].view else v'
  }

  /** The turns follow one another up to `to` and `v'`. */
  ghost predicate Turns<T>(run: seq<Moment>, select: Contents<T>, turns: seq<Turn<T>>, to: nat, v': SubView) {
    forall i {:trigger turns[i]} :: 0 <= i < |turns| ==>
      VisitStep(run, select, turns[i].from, BeginsAt(turns, to, i + 1), turns[i].view, turns[i].visit, turns[i].answer,
                BeginsWith(turns, v', i + 1))
  }

  predicate AllEmpty<T>(turns: seq<Turn<T>>) {
    forall i :: 0 <= i < |turns| ==> turns[i].answer.Ok? && turns[i].answer.value.list == []
  }

  /** A call in either mode: block after block without matches, then one with, or one that fails. */
  ghost predicate SkipTurns<T>(run: seq<Moment>, select: Contents<T>, turns: seq<Turn<T>>, from: nat, to: nat,
                               v: SubView, r: Result<Batch<T>>, v': SubView)
  {
    && turns != [] && turns[0].from == from && turns[0].view == v && turns[|turns| - 1].answer == r
    && Turns(run, select, turns, to, v')
    && AllEmpty(turns[..|turns| - 1]) && (r.Ok? ==> r.value.list != [])
  }

  lemma TurnsAppend<T>(run: seq<Moment>, select: Contents<T>, turns: seq<Turn<T>>, turn: Turn<T>, to: nat,
                       v': SubView)
    requires Turns(run, select, turns, turn.from, turn.view)
    requires VisitStep(run, select, turn.from, to, turn.view, turn.visit, turn.answer, v')
    ensures Turns(run, select, turns + [turn], to, v')
  {
    hide VisitStep;
  }

  lemma NoTurns<T>(run: seq<Moment>, select: Contents<T>, to: nat, v': SubView)
    ensures Turns(run, select, [], to, v')
  {
  }

  /** After any number of empty turns nothing that matched was passed over. */
  lemma {:induction false} EmptyTurnsSkip<T>(run: seq<Moment>, select: Contents<T>, turns: seq<Turn<T>>,
                                             to: nat, v': SubView, n: nat) returns (start: Option<U32>)
    requires AppendOnly(run) && turns != [] && Turns(run, select, turns, to, v')
    requires turns[0].view.AtCursor? || turns[0].view == Unset(false)
    requires n < |turns| && AllEmpty(turns[..n])
    ensures turns[0].from <= turns[n].from
    ensures Skipping(run, select, turns[0].from, turns[n].from, turns[0].view, start, turns[n].view)
  {
    hide VisitStep, AppendOnly;
    if n == 0 {
      start := if turns[0].view.AtCursor? then Some(turns[0].view.cursor.at) else None;
    } else {
      var turn := turns[n - 1];
      assert AllEmpty(turns[..n - 1]) && turns[..n][n - 1] == turn;
      start := EmptyTurnsSkip(run, select, turns, to, v', n - 1);
      VisitTakesTime(run, select, turn.from, turns[n].from, turn.view, turn.visit, turn.answer, turns[n].view);
      start := StepKnown(run, select, turns[0].from, turn.from, turns[n].from, turns[0].view, start, turn.view,
                         turn.visit, turn.answer, turns[n].view);
    }
  }

  lemma VisitTakesTime<T>(run: seq<Moment>, select: Contents<T>, from: nat, to: nat,
                          v: SubView, visit: Visit, r: Result<Batch<T>>, v': SubView)
    requires VisitStep(run, select, from, to, v, visit, r, v')
    ensures from < to
  {
  }

  /** In finalised mode the turns deliver the first block with matches, or lose none. */
  lemma TurnsSkip<T>(run: seq<Moment>, select: Contents<T>, turns: seq<Turn<T>>, from: nat, to: nat,
                     v: SubView, r: Result<Batch<T>>, v': SubView)
    requires AppendOnly(run) && (v.AtCursor? || v == Unset(false))
    requires SkipTurns(run, select, turns, from, to, v, r, v')
    ensures SkipView(run, select, from, to, v, r, v')
  {
    hide VisitStep, AppendOnly;
    var n := |turns| - 1;
    var start := EmptyTurnsSkip(run, select, turns, to, v', n);
    var _ := StepKnown(run, select, from, turns[n].from, to, v, start, turns[n].view, turns[n].visit, r, v');
  }

  /** `ExtrinsicSub`, `EncodedExtrinsicSub` and `BlockEventsSub`: the same loop over different items. */
  class MatchSub<E, T> {
    const sub: Sub
    // The items the node lists for each block under the configured options, and how one is decoded.
    const listing: map<Hash, seq<E>>
    const decode: E -> Option<T>

    constructor (sub: Sub, listing: map<Hash, seq<E>>, decode: E -> Option<T>)
      ensures this.sub == sub && this.listing == listing && this.decode == decode
    {
      this.sub := sub;
      this.listing := listing;
      this.decode := decode;
    }

    ghost function Select(): Contents<T> {
      map block | block in listing :: Read(decode, listing[block])
    }

    /** Skips the steps that come back empty. */
    method Next() returns (r: Result<Batch<T>>, ghost turns: seq<Turn<T>>)
      requires sub.Valid()
      modifies sub.Footprint()
      ensures sub.Valid() && fresh(sub.Footprint() - old(sub.Footprint())) && sub.IsBest() == old(sub.IsBest())
      ensures SkipTurns(sub.node.run, Select(), turns, old(sub.node.now), sub.node.now, old(sub.View()), r, sub.View())
      ensures !sub.IsBest() ==>
        SkipView(sub.node.run, Select(), old(sub.node.now), sub.node.now, old(sub.View()), r, sub.View())
      ensures r.Ok? ==> Matches(Select(), r.value.hash) == Some(r.value.list) && r.value.list != []
    {
      hide VisitStep, Matches, Turns, SkipView;
      ghost var v, from, run := sub.View(), sub.node.now, sub.node.run;
      turns := [];
      NoTurns(run, Select(), from, v);
      while true
        invariant sub.Valid() && fresh(sub.Footprint() - old(sub.Footprint())) && sub.IsBest() == old(sub.IsBest())
        invariant Turns(run, Select(), turns, sub.node.now, sub.View()) && AllEmpty(turns)
        invariant BeginsAt(turns, sub.node.now, 0) == from && BeginsWith(turns, sub.View(), 0) == v
        decreases |run| - sub.node.now
      {
        ghost var mid, v1, before := sub.node.now, sub.View(), turns;
        ghost var visit: Visit;
        r, visit := NextStep();
        TurnsAppend(run, Select(), before, Turn(mid, v1, visit, r), sub.node.now, sub.View());
        turns := turns + [Turn(mid, v1, visit, r)];
        assert turns[..|turns| - 1] == before;
        if r.Ok? && r.value.list == [] { continue; }
        if !sub.IsBest() { TurnsSkip(run, Select(), turns, from, sub.node.now, v, r, sub.View()); }
        return;
      }
    }

    /** One block, matches or not. */
    method NextStep() returns (r: Result<Batch<T>>, ghost visit: Visit)
      requires sub.Valid()
      modifies sub.Footprint()
      ensures sub.Valid() && fresh(sub.Footprint() - old(sub.Footprint())) && sub.IsBest() == old(sub.IsBest())
      ensures old(sub.node.now) < sub.node.now
      ensures r.Ok? ==> sub.node.now <= |sub.node.run|
      ensures r.Ok? ==> Matches(Select(), r.value.hash) == Some(r.value.list)
      ensures VisitStep(sub.node.run, Select(), old(sub.node.now), sub.node.now, old(sub.View()), visit, r, sub.View())
      ensures !sub.IsBest() && r.Ok? ==> r.value.height < |FinalizedBy(sub.node.run, sub.node.now)|
    {
      hide Sane, AppendOnly;
      var info := sub.Next();
      visit := Visit(info, sub.View(), sub.node.now);
      if info.Err? { return Err(info.error), visit; }
      FinalizedGrows(sub.node.run, sub.node.now, sub.node.now + 1);
      var list := AllOrRewind(info.value);
      if list.Err? { return Err(list.error), visit; }
      r := Ok(Batch(list.value, info.value.height, info.value.hash));
    }

    /** Asks for the block's matches and decodes them; on failure jumps back to the block. */
    method AllOrRewind(info: BlockInfo) returns (list: Result<seq<T>>)
      requires sub.Valid()
      modifies sub.Footprint()
      ensures sub.Valid() && sub.Footprint() == old(sub.Footprint()) && sub.IsBest() == old(sub.IsBest())
      ensures sub.node.now == old(sub.node.now) + 1
      ensures list ==
        if !Up(sub.node.run, old(sub.node.now)) then Err(RpcFailed)
        else if Matches(Select(), info.hash).None? then Err(DecodingFailed)
        else Ok(Matches(Select(), info.hash).value)
      ensures list.Ok? ==> sub.View() == old(sub.View())
      ensures list.Err? ==> sub.View() == Opened(sub.IsBest(), info.height)
    {
      var found := sub.Query(info.hash, listing);
      if found.Err? {
        sub.SetBlockHeight(info.height);
        return Err(found.error);
      }
      var items := found.value.GetOr([]);
      var result: seq<T> := [];
      for i := 0 to |items|
        invariant sub.Valid() && sub.Footprint() == old(sub.Footprint()) && sub.IsBest() == old(sub.IsBest())
        invariant sub.node.now == old(sub.node.now) + 1 && sub.View() == old(sub.View())
        invariant Read(decode, items[..i]) == Some(result)
      {
        assert items[..i + 1][..i] == items[..i];
        var item := decode(items[i]);
        if item.None? {
          ReadIff(decode, items);
          sub.SetBlockHeight(info.height);
          return Err(DecodingFailed);
        }
        result := result + [item.value];
      }
      assert items[..|items|] == items;
      list := Ok(result);
    }
  }

  /** One fetch at the cursor: deliver what the block there holds, or stay to retry it. */
  ghost predicate FetchStep<T>(chain: seq<Hash>, fetch: map<Hash, T>, c: Cursor, r: Result<Option<T>>, c': Cursor) {
    match r
    case Ok(x) => c.at < |chain| && x == Lookup(fetch, chain[c.at]) && c'.at == c.at + 1 && c'.emitted
    case Err(_) => c' == c || c' == Cursor(c.at, false)
  }

  /** The same in every mode: one step of the subscription, then the fetch, undone if it fails. */
  ghost predicate FetchVisit<T>(run: seq<Moment>, fetch: map<Hash, T>, from: nat, to: nat, back: bool,
                                v: SubView, visit: Visit, r: Result<Option<T>>, v': SubView)
  {
    && SubStep(run, from, visit.until, back, v, visit.info, visit.view)
    && (match visit.info
        case Err(_) => r.Err? && v' == visit.view && to == visit.until
        case Ok(info) =>
          && to == visit.until + 1 && (r.Ok? <==> Up(run, visit.until))
          && if r.Err? then v' == Opened(visit.view.AtTip?, info.height)
             else v' == visit.view && r.value == Lookup(fetch, info.hash))
  }

  /** `LegacyBlockSub` and `BlockHeaderSub`: one value per block, forwards and backwards. */
  class FetchSub<T> {
    const sub: Sub
    const fetch: map<Hash, T>

    constructor (sub: Sub, fetch: map<Hash, T>)
      ensures this.sub == sub && this.fetch == fetch
    {
      this.sub := sub;
      this.fetch := fetch;
    }

    method Next() returns (r: Result<Option<T>>, ghost visit: Visit)
      requires sub.Valid()
      modifies sub.Footprint()
      ensures sub.Valid() && fresh(sub.Footprint() - old(sub.Footprint())) && old(sub.node.now) <= sub.node.now
      ensures FetchVisit(sub.node.run, fetch, old(sub.node.now), sub.node.now, false, old(sub.View()), visit, r,
                         sub.View())
      ensures old(sub.View()).AtCursor? ==>
        && sub.View().AtCursor?
        && FetchStep(Chain(sub.node.run), fetch, old(sub.View()).cursor, r, sub.View().cursor)
    {
      var info := sub.Next();
      visit := Visit(info, sub.View(), sub.node.now);
      if info.Err? { return Err(info.error), visit; }
      r := FetchOrRewind(info.value);
    }

    /** A failed `Prev` leaves the cursor on the block it wanted, which `Next` would deliver. */
    method Prev() returns (r: Result<Option<T>>, ghost visit: Visit)
      requires sub.Valid()
      modifies sub.Footprint()
      ensures sub.Valid() && fresh(sub.Footprint() - old(sub.Footprint())) && old(sub.node.now) <= sub.node.now
      ensures FetchVisit(sub.node.run, fetch, old(sub.node.now), sub.node.now, true, old(sub.View()), visit, r,
                         sub.View())
      ensures old(sub.View()).AtCursor? ==>
        && sub.View().AtCursor?
        && FetchStep(Chain(sub.node.run), fetch, PrevTarget(old(sub.View()).cursor), r, sub.View().cursor)
    {
      var info := sub.Prev();
      visit := Visit(info, sub.View(), sub.node.now);
      if info.Err? { return Err(info.error), visit; }
      r := FetchOrRewind(info.value);
    }

    method FetchOrRewind(info: BlockInfo) returns (r: Result<Option<T>>)
      requires sub.Valid()
      modifies sub.Footprint()
      ensures sub.Valid() && sub.Footprint() == old(sub.Footprint()) && sub.IsBest() == old(sub.IsBest())
      ensures sub.node.now == old(sub.node.now) + 1
      ensures r.Ok? <==> Up(sub.node.run, old(sub.node.now))
      ensures r.Ok? ==> r.value == Lookup(fetch, info.hash) && sub.View() == old(sub.View())
      ensures r.Err? ==> sub.View() == Opened(sub.IsBest(), info.height)
    {
      r := sub.Query(info.hash, fetch);
      if r.Err? { sub.SetBlockHeight(info.height); }
    }
  }

  /** Once the block wanted is finalised and the next four RPCs are answered, it is delivered. */
  lemma ReachedBlockIsFetched<T>(run: seq<Moment>, fetch: map<Hash, T>, from: nat, to: nat, back: bool, c: Cursor,
                                 visit: Visit, r: Result<Option<T>>, v': SubView, t: nat)
    requires FetchVisit(run, fetch, from, to, back, AtCursor(c), visit, r, v')
    requires var wanted := if back then SaturatingSub(c.at, if c.emitted then 2 else 1) else c.at;
      from <= t < |run| && wanted < |run[t].finalized|
    requires Answered(run, from, t + 4)
    ensures r.Ok? && to <= t + 4
    ensures var wanted := if back then SaturatingSub(c.at, if c.emitted then 2 else 1) else c.at;
      BlockHolds(Chain(run), fetch, wanted, r.value)
  {
    assert visit.until - 3 <= t;
  }

  /** Successive `next` calls on a finalised cursor, some of which may fail. */
  ghost predicate FetchRun<T>(chain: seq<Hash>, fetch: map<Hash, T>, cursors: seq<Cursor>,
                              results: seq<Result<Option<T>>>)
  {
    && |cursors| == |results| + 1
    && forall i :: 0 <= i < |results| ==> FetchStep(chain, fetch, cursors[i], results[i], cursors[i + 1])
  }

  function Fetched<T>(results: seq<Result<Option<T>>>): seq<Option<T>> {
    if results == [] then []
    else
      var last := results[|results| - 1];
      Fetched(results[..|results| - 1]) + if last.Ok? then [last.value] else []
  }

  /** What the block at a height holds; None if the node has nothing for it. */
  ghost predicate BlockHolds<T>(chain: seq<Hash>, fetch: map<Hash, T>, h: nat, x: Option<T>) {
    h < |chain| && x == if chain[h] in fetch then Some(fetch[chain[h]]) else None
  }

  /** What the calls delivered is what the blocks from the starting height on hold, each in turn and none twice. */
  lemma {:induction false} FetchSubDeliversEveryBlock<T>(
    chain: seq<Hash>, fetch: map<Hash, T>, cursors: seq<Cursor>, results: seq<Result<Option<T>>>, n: nat)
    requires FetchRun(chain, fetch, cursors, results) && n <= |results|
    ensures cursors[n].at == cursors[0].at + |Fetched(results[..n])|
    ensures forall i :: 0 <= i < |Fetched(results[..n])| ==>
      BlockHolds(chain, fetch, cursors[0].at + i, Fetched(results[..n])[i])
  {
    if n == 0 {
    } else {
      FetchSubDeliversEveryBlock(chain, fetch, cursors, results, n - 1);
      assert results[..n][..n - 1] == results[..n - 1];
      var r, before := results[n - 1], Fetched(results[..n - 1]);
      assert FetchStep(chain, fetch, cursors[n - 1], r, cursors[n]);
      assert Fetched(results[..n]) == before + if r.Ok? then [r.value] else [];
      assert cursors[n - 1].at == cursors[0].at + |before|;
      forall i | 0 <= i < |Fetched(results[..n])|
        ensures BlockHolds(chain, fetch, cursors[0].at + i, Fetched(results[..n])[i])
      {
        if i < |before| { assert Fetched(results[..n])[i] == before[i]; }
      }
    }
  }

  /** After a failed `prev`, `next` delivers what the block holds that `prev` wanted. */
  lemma NextRetriesPrev<T>(chain: seq<Hash>, fetch: map<Hash, T>, c: Cursor, error: Error, c1: Cursor,
                           x: Option<T>, c2: Cursor)
    requires FetchStep(chain, fetch, PrevTarget(c), Err(error), c1) && FetchStep(chain, fetch, c1, Ok(x), c2)
    ensures BlockHolds(chain, fetch, SaturatingSub(c.at, if c.emitted then 2 else 1), x)
  {
  }

  // ---------------------------------------------------------------- whole runs of MatchSub

  /**
   Successive calls in finalised mode: call i is made in [starts[i], ends[i]), on the subscription as
   views[i] has it, and answers results[i]. Other RPCs may be made between the calls.
   */
  ghost predicate SkipRun<T>(run: seq<Moment>, select: Contents<T>, starts: seq<nat>, ends: seq<nat>,
                             views: seq<SubView>, results: seq<Result<Batch<T>>>)
  {
    && |starts| == |ends| == |results| && |views| == |results| + 1
    && (forall i :: 0 <= i < |results| ==>
          SkipView(run, select, starts[i], ends[i], views[i], results[i], views[i + 1]))
  }

  function Batches<T>(results: seq<Result<Batch<T>>>): seq<Batch<T>> {
    if results == [] then []
    else
      var last := results[|results| - 1];
      Batches(results[..|results| - 1]) + if last.Ok? then [last.value] else []
  }

  /** Every block of chain[from..to] that can be read and has matches, in height order. */
  ghost function Matching<T>(chain: seq<Hash>, select: Contents<T>, from: nat, to: nat): seq<Batch<T>>
    requires from <= to && (from < to ==> to <= |chain|) && |chain| < U32_RANGE
  {
    if from == to then []
    else
      Matching(chain, select, from, to - 1) + BatchAt(chain, select, to - 1)
  }

  /** The batch of a block that can be read and has matches; no batch otherwise. */
  ghost function BatchAt<T>(chain: seq<Hash>, select: Contents<T>, h: nat): seq<Batch<T>>
    requires h < |chain| < U32_RANGE
  {
    match Matches(select, chain[h])
    case Some(list) => if list == [] then [] else [Batch(list, h, chain[h])]
    case None => []
  }

  lemma QuietAddsNothing<T>(chain: seq<Hash>, select: Contents<T>, from: nat, mid: nat, to: nat)
    requires from <= mid <= to && (from < to ==> to <= |chain|) && |chain| < U32_RANGE
    requires Quiet(chain, select, mid, to)
    ensures Matching(chain, select, from, to) == Matching(chain, select, from, mid)
  {
    if mid == to {
    } else {
      QuietAddsNothing(chain, select, from, mid, to - 1);
    }
  }

  /** One call adds exactly the matching blocks it moved past. */
  lemma SkipAddsMatching<T>(chain: seq<Hash>, select: Contents<T>, start: nat, at: nat, r: Result<Batch<T>>,
                            at': nat)
    requires SkipStep(chain, select, at, r, at') && |chain| < U32_RANGE
    requires start <= at && (start < at ==> at <= |chain|)
    ensures at <= at' && (start < at' ==> at' <= |chain|)
    ensures Matching(chain, select, start, at') == Matching(chain, select, start, at) + if r.Ok? then [r.value] else []
  {
    hide Matches;
    QuietAddsNothing(chain, select, start, at, if r.Ok? then r.value.height else at');
    hide Matching;
    if r.Ok? { MatchingStep(chain, select, start, at'); }
  }

  lemma MatchingStep<T>(chain: seq<Hash>, select: Contents<T>, start: nat, to: nat)
    requires start < to <= |chain| < U32_RANGE
    ensures Matching(chain, select, start, to)
         == Matching(chain, select, start, to - 1) + BatchAt(chain, select, to - 1)
  {
  }

  /**
   For every schedule of failures and head growth, what the calls delivered is exactly the blocks
   with matches between the starting height and the cursor, in order and each once, and each was
   finalised when delivered. The starting height is the one set, or else the finalised head one of
   the calls saw first; until a call sees it nothing is delivered.
   */
  lemma {:induction false} MatchSubDeliversEveryMatch<T>(
    run: seq<Moment>, select: Contents<T>, starts: seq<nat>, ends: seq<nat>,
    views: seq<SubView>, results: seq<Result<Batch<T>>>, n: nat) returns (start: Option<U32>)
    requires Sane(run) && SkipRun(run, select, starts, ends, views, results) && n <= |results|
    requires views[0].AtCursor? || views[0] == Unset(false)
    ensures match start
      case None => views[n] == Unset(false) && Batches(results[..n]) == []
      case Some(at) =>
        && views[n].AtCursor? && at <= views[n].cursor.at
        && (at < views[n].cursor.at ==> views[n].cursor.at <= |Chain(run)|)
        && Batches(results[..n]) == Matching(Chain(run), select, at, views[n].cursor.at)
    ensures views[0].AtCursor? ==> start == Some(views[0].cursor.at)
    ensures views[0].Unset? && start.Some? ==> exists i :: 0 <= i < n && HeadAt(run, starts[i], false, start.value)
    ensures forall i :: 0 <= i < n && results[i].Ok? ==> results[i].value.height < |FinalizedBy(run, ends[i])|
  {
    hide Sane, Matching, SkipStep, SkipPace, HeadAt, ReadableAt;
    HeightsFit(run, |run|);
    if n == 0 {
      start := if views[0].AtCursor? then Some(views[0].cursor.at) else None;
      if start.Some? { NothingMatching(Chain(run), select, start.value); }
    } else {
      start := MatchSubDeliversEveryMatch(run, select, starts, ends, views, results, n - 1);
      assert results[..n][..n - 1] == results[..n - 1];
      var r, v, v' := results[n - 1], views[n - 1], views[n];
      assert SkipView(run, select, starts[n - 1], ends[n - 1], v, r, v');
      if start.Some? {
        SkipAddsMatching(Chain(run), select, start.value, v.cursor.at, r, v'.cursor.at);
      } else if r.Ok? || v' != v {
        var h: U32 :|
          HeadAt(run, starts[n - 1], false, h) && SkipFrom(run, select, starts[n - 1], ends[n - 1], h, r, v');
        NothingMatching(Chain(run), select, h);
        SkipAddsMatching(Chain(run), select, h, h, r, v'.cursor.at);
        start := Some(h);
      }
    }
  }

  lemma NothingMatching<T>(chain: seq<Hash>, select: Contents<T>, at: nat)
    requires |chain| < U32_RANGE
    ensures Matching(chain, select, at, at) == []
  {
  }

  /** The block at `h` has matches, and it and every block from `at` up to it can be read. */
  ghost predicate Deliverable<T>(chain: seq<Hash>, select: Contents<T>, at: nat, h: nat) {
    && at <= h < |chain| && Matches(select, chain[h]).Some? && Matches(select, chain[h]).value != []
    && forall g :: at <= g < h ==> Matches(select, chain[g]).Some?
  }

  /**
   Once the blocks up to `height` are finalised and the RPCs it takes to get there are answered, a call
   delivers one of them exactly when one of them is deliverable.
   */
  lemma DeliversIffDeliverable<T>(run: seq<Moment>, select: Contents<T>, from: nat, to: nat,
                                  at: nat, r: Result<Batch<T>>, v': SubView, height: nat, t: nat)
    requires AppendOnly(run) && SkipFrom(run, select, from, to, at, r, v')
    requires from <= t < |run| && at <= height < |run[t].finalized|
    requires Answered(run, from, t + 4 * (height - at + 1) + 1)
    ensures (r.Ok? && r.value.height <= height) <==>
      exists h :: at <= h <= height && Deliverable(Chain(run), select, at, h)
  {
    hide Matches;
    if r.Ok? && r.value.height <= height {
      assert Deliverable(Chain(run), select, at, r.value.height);
    }
    if h :| at <= h <= height && Deliverable(Chain(run), select, at, h) {
      FinalizedMatchIsDelivered(run, select, from, to, at, r, v', h, t);
    }
  }

  /** A block with matches, with no unreadable block before it, is delivered, or one before it is. */
  lemma FinalizedMatchIsDelivered<T>(run: seq<Moment>, select: Contents<T>, from: nat, to: nat,
                                     at: nat, r: Result<Batch<T>>, v': SubView, height: nat, t: nat)
    requires SkipFrom(run, select, from, to, at, r, v') && Deliverable(Chain(run), select, at, height)
    requires from <= t < |run| && height < |run[t].finalized|
    requires Answered(run, from, t + 4 * (height - at + 1) + 1)
    ensures r.Ok? && r.value.height <= height
  {
    hide Matches;
    var awaited := LastAwaited(r, v'.cursor.at);
    assert awaited <= height;
    assert ReadableAt(Chain(run), select, awaited);
  }

  /**
   A block that cannot be read is never passed: from a cursor at or below it, however often it is called,
   the subscription stays at or below it and delivers only blocks below it.
   */
  lemma {:induction false} UnreadableBlockIsNeverPassed<T>(
    run: seq<Moment>, select: Contents<T>, starts: seq<nat>, ends: seq<nat>,
    views: seq<SubView>, results: seq<Result<Batch<T>>>, bad: nat, n: nat)
    requires SkipRun(run, select, starts, ends, views, results) && n <= |results|
    requires views[0].AtCursor? && views[0].cursor.at <= bad
    requires !ReadableAt(Chain(run), select, bad)
    ensures views[n].AtCursor? && views[n].cursor.at <= bad
    ensures forall i :: 0 <= i < n && results[i].Ok? ==> results[i].value.height < bad
  {
    hide SkipPace, Matches;
    if n == 0 {
    } else {
      UnreadableBlockIsNeverPassed(run, select, starts, ends, views, results, bad, n - 1);
      assert SkipView(run, select, starts[n - 1], ends[n - 1], views[n - 1], results[n - 1], views[n]);
    }
  }

  /** Each entry of `Matching` is a block of the range with matches, above the entry before it. */
  lemma {:induction false} MatchingEntry<T>(chain: seq<Hash>, select: Contents<T>, from: nat, to: nat, i: nat)
    requires from <= to <= |chain| < U32_RANGE && i < |Matching(chain, select, from, to)|
    ensures var bs := Matching(chain, select, from, to);
      && from <= bs[i].height < to && bs[i].list != [] && [bs[i]] == BatchAt(chain, select, bs[i].height)
      && (i > 0 ==> bs[i - 1].height < bs[i].height)
  {
    var before, bs := Matching(chain, select, from, to - 1), Matching(chain, select, from, to);
    if i < |before| {
      MatchingEntry(chain, select, from, to - 1, i);
      assert bs[i] == before[i] && (i > 0 ==> bs[i - 1] == before[i - 1]);
    } else if i > 0 {
      MatchingEntry(chain, select, from, to - 1, i - 1);
      assert bs[i - 1] == before[i - 1];
    }
  }

  /** And every block of the range with matches is an entry. */
  lemma {:induction false} MatchingIsComplete<T>(chain: seq<Hash>, select: Contents<T>, from: nat, to: nat,
                                                 h: nat)
    requires from <= h < to <= |chain| < U32_RANGE && BatchAt(chain, select, h) != []
    ensures BatchAt(chain, select, h)[0] in Matching(chain, select, from, to)
  {
    if h == to - 1 {
    } else {
      MatchingIsComplete(chain, select, from, to - 1, h);
    }
  }
}
