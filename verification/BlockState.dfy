/** The lifecycle state reported for a block, decided from up to three RPCs made one after another. */
module BlockState {
  import opened Prelude
  import opened Rpc

  datatype State = Included | Finalized | Discarded | DoesNotExist

  datatype BlockId = ByHash(hash: Hash) | ByNumber(number: U32)

  /**
   The instants at which one call's RPCs are answered: the chain info, then the height the node
   has on record for a hash, then the best chain's hash at that height.
   */
  datatype Call = Call(info: Moment, recordUp: bool, record: map<Hash, U32>, lookup: Moment)

  function ReportedState(c: Call, id: BlockId): Result<State>
    requires 0 < |c.info.finalized| && 0 < |c.info.best|
  {
    var finalizedHeight, bestHeight := |c.info.finalized| - 1, |c.info.best| - 1;
    if !c.info.up then Err(RpcFailed)
    else match id
      case ByNumber(n) => Ok(StateAtHeight(n, finalizedHeight, bestHeight))
      case ByHash(h) =>
        if h == c.info.finalized[finalizedHeight] then Ok(Finalized)
        else if h == c.info.best[bestHeight] then Ok(Included)
        else if !c.recordUp then Err(RpcFailed)
        else if h !in c.record then Ok(DoesNotExist)
        else
          var n := c.record[h];
          if !c.lookup.up then Err(RpcFailed)
          else if n >= |c.lookup.best| then Ok(DoesNotExist)
          else if c.lookup.best[n] != h then Ok(Discarded)
          else Ok(StateAtHeight(n, finalizedHeight, bestHeight))
  }

  function StateAtHeight(n: nat, finalizedHeight: nat, bestHeight: nat): State {
    if n > bestHeight then DoesNotExist
    else if n > finalizedHeight then Included
    else Finalized
  }

  /** For a height the answer is settled by the first RPC alone. */
  lemma StateOfNumber(c: Call, n: U32)
    requires 0 < |c.info.finalized| && 0 < |c.info.best|
    ensures !c.info.up ==> ReportedState(c, ByNumber(n)) == Err(RpcFailed)
    ensures c.info.up && n >= |c.info.best| ==> ReportedState(c, ByNumber(n)) == Ok(DoesNotExist)
    ensures c.info.up && |c.info.finalized| <= n < |c.info.best| ==> ReportedState(c, ByNumber(n)) == Ok(Included)
    ensures c.info.up && n < |c.info.best| && n < |c.info.finalized| ==> ReportedState(c, ByNumber(n)) == Ok(Finalized)
  {
  }

  /** The heads as the first RPC gave them: for their hashes nothing more is asked. */
  ghost predicate IsHead(c: Call, h: Hash) {
    && 0 < |c.info.finalized| && 0 < |c.info.best|
    && (h == c.info.finalized[|c.info.finalized| - 1] || h == c.info.best[|c.info.best| - 1])
  }

  /**
   For a hash: an error exactly when an RPC that is needed fails; of any other block than the heads, no such
   block when there is no record of it or no best block at its height, discarded when another block is
   there, and else what its height says.
   */
  lemma {:induction false} StateOfHash(c: Call, h: Hash)
    requires 0 < |c.info.finalized| && 0 < |c.info.best|
    ensures ReportedState(c, ByHash(h)).Err? <==>
      !c.info.up || (!IsHead(c, h) && (!c.recordUp || (h in c.record && !c.lookup.up)))
    ensures c.info.up && h == c.info.finalized[|c.info.finalized| - 1] ==> ReportedState(c, ByHash(h)) == Ok(Finalized)
    ensures c.info.up && IsHead(c, h) && h != c.info.finalized[|c.info.finalized| - 1] ==>
      ReportedState(c, ByHash(h)) == Ok(Included)
    ensures !IsHead(c, h) && ReportedState(c, ByHash(h)).Ok? ==>
      var state := ReportedState(c, ByHash(h)).value;
      && (h !in c.record ==> state == DoesNotExist)
      && (h in c.record && c.record[h] >= |c.lookup.best| ==> state == DoesNotExist)
      && (h in c.record && c.record[h] < |c.lookup.best| && c.lookup.best[c.record[h]] != h ==> state == Discarded)
      && (h in c.record && c.record[h] < |c.lookup.best| && c.lookup.best[c.record[h]] == h ==>
            Ok(state) == ReportedState(c, ByNumber(c.record[h])))
  {
  }

  /** Finalisation only appends between the RPCs, the best chain extends it, and no block repeats. */
  ghost predicate Sound(c: Call) {
    && 0 < |c.info.finalized|
    && c.info.finalized <= c.info.best
    && c.info.finalized <= c.lookup.finalized <= c.lookup.best
    && (forall i, j :: 0 <= i < j < |c.info.best| ==> c.info.best[i] != c.info.best[j])
  }

  /** The node keeps the height of every block that is finalised. */
  ghost predicate KeepsFinalized(c: Call) {
    forall i :: 0 <= i < |c.info.finalized| ==> c.info.finalized[i] in c.record && c.record[c.info.finalized[i]] == i
  }

  /** Whatever the best chain does between the RPCs, `Finalized` means on the finalised chain, exactly. */
  lemma FinalizedIffOnFinalizedChain(c: Call, h: Hash)
    requires Sound(c) && KeepsFinalized(c) && ReportedState(c, ByHash(h)).Ok?
    ensures ReportedState(c, ByHash(h)) == Ok(Finalized) <==> h in c.info.finalized
  {
    if h in c.info.finalized {
      var i :| 0 <= i < |c.info.finalized| && c.info.finalized[i] == h;
      assert c.info.best[i] == h && c.lookup.best[i] == h;
    }
    if ReportedState(c, ByHash(h)) == Ok(Finalized) && h != c.info.finalized[|c.info.finalized| - 1] {
      var n := c.record[h];
      assert c.lookup.best[n] == h && c.info.finalized[n] == h;
    }
  }

  /** Nothing changed between the RPCs, and the node keeps the height of every block of the best chain. */
  ghost predicate Still(c: Call) {
    && c.lookup.best == c.info.best
    && (forall i :: 0 <= i < |c.info.best| ==> c.info.best[i] in c.record && c.record[c.info.best[i]] == i)
  }

  /** On a chain that holds still each state has one meaning; a fork above the best height does not exist. */
  lemma StatesOfStillChain(c: Call, h: Hash)
    requires Sound(c) && Still(c) && ReportedState(c, ByHash(h)).Ok?
    ensures var state := ReportedState(c, ByHash(h)).value;
      && (state == Finalized <==> h in c.info.finalized)
      && (state == Included <==> h in c.info.best && h !in c.info.finalized)
      && (state == Discarded <==> h in c.record && h !in c.info.best && c.record[h] < |c.info.best|)
  {
    hide ReportedState;
    assert KeepsFinalized(c);
    FinalizedIffOnFinalizedChain(c, h);
    if h in c.info.best {
      var i :| 0 <= i < |c.info.best| && c.info.best[i] == h;
      HashAndHeightAgree(c, i);
    } else {
      OffBestChain(c, h);
    }
  }

  lemma OffBestChain(c: Call, h: Hash)
    requires Sound(c) && Still(c) && ReportedState(c, ByHash(h)).Ok? && h !in c.info.best
    ensures ReportedState(c, ByHash(h)) ==
      Ok(if h in c.record && c.record[h] < |c.info.best| then Discarded else DoesNotExist)
  {
  }

  /** Asking for a best block by its hash or by its height gives the same state. */
  lemma HashAndHeightAgree(c: Call, n: U32)
    requires Sound(c) && Still(c) && n < |c.info.best| && ReportedState(c, ByHash(c.info.best[n])).Ok?
    ensures ReportedState(c, ByNumber(n)) == ReportedState(c, ByHash(c.info.best[n]))
    ensures ReportedState(c, ByNumber(n)) == Ok(if n < |c.info.finalized| then Finalized else Included)
    ensures n < |c.info.finalized| <==> c.info.best[n] in c.info.finalized
  {
  }

  /** Once a block is reported finalised, every later call that answers reports it finalised. */
  lemma FinalizedIsForever(first: Call, later: Call, id: BlockId)
    requires Sound(first) && KeepsFinalized(first) && Sound(later) && KeepsFinalized(later)
    requires first.info.finalized <= later.info.finalized
    requires ReportedState(first, id) == Ok(Finalized) && ReportedState(later, id).Ok?
    ensures ReportedState(later, id) == Ok(Finalized)
  {
    if id.ByHash? {
      FinalizedIffOnFinalizedChain(first, id.hash);
      FinalizedIffOnFinalizedChain(later, id.hash);
      var i :| 0 <= i < |first.info.finalized| && first.info.finalized[i] == id.hash;
      assert later.info.finalized[i] == id.hash;
    }
  }

  /** A height, once the node has recorded it, is the hash's only height. */
  ghost predicate RecordsAgree(first: Call, later: Call, h: Hash) {
    h in first.record && forall i :: 0 <= i < |later.info.finalized| && later.info.finalized[i] == h ==>
      i == first.record[h]
  }

  /** A block discarded at a height that is already finalised is never reported finalised later. */
  lemma DiscardedBelowFinalityIsForever(first: Call, later: Call, h: Hash)
    requires Sound(first) && Sound(later) && KeepsFinalized(later) && RecordsAgree(first, later, h)
    requires first.lookup.finalized <= later.info.finalized
    requires ReportedState(first, ByHash(h)) == Ok(Discarded) && ReportedState(later, ByHash(h)).Ok?
    requires first.record[h] < |first.lookup.finalized|
    ensures ReportedState(later, ByHash(h)) != Ok(Finalized)
  {
    FinalizedIffOnFinalizedChain(later, h);
    var n := first.record[h];
    assert first.lookup.best[n] == first.lookup.finalized[n] == later.info.finalized[n];
  }

  /** A call made after `first`: finalisation has only grown, and the node's record of h is what it was. */
  ghost predicate After(first: Call, later: Call, h: Hash) {
    && Sound(later) && KeepsFinalized(later) && RecordsAgree(first, later, h)
    && first.lookup.finalized <= later.info.finalized
  }

  ghost predicate Distinct(chain: seq<Hash>) {
    forall i, j :: 0 <= i < j < |chain| ==> chain[i] != chain[j]
  }

  /**
   A discarded block is never reported finalised later exactly when its height was finalised already;
   above finality there is always a later call that reports it finalised.
   */
  lemma DiscardedIsForeverIff(first: Call, h: Hash)
    requires Sound(first) && ReportedState(first, ByHash(h)) == Ok(Discarded)
    requires Distinct(first.lookup.finalized) && h !in first.lookup.finalized
    ensures (forall later :: After(first, later, h) ==> ReportedState(later, ByHash(h)) != Ok(Finalized))
       <==> first.record[h] < |first.lookup.finalized|
  {
    if first.record[h] < |first.lookup.finalized| {
      forall later | After(first, later, h)
        ensures ReportedState(later, ByHash(h)) != Ok(Finalized)
      {
        if ReportedState(later, ByHash(h)).Ok? { DiscardedBelowFinalityIsForever(first, later, h); }
      }
    } else {
      var later := ComesBack(first, h);
      assert After(first, later, h);
    }
  }

  /** The later call: the chain has grown up to the block, on a fork that holds it. */
  lemma ComesBack(first: Call, h: Hash) returns (later: Call)
    requires Distinct(first.lookup.finalized) && h !in first.lookup.finalized
    requires h in first.record && |first.lookup.finalized| <= first.record[h]
    ensures After(first, later, h) && ReportedState(later, ByHash(h)) == Ok(Finalized)
  {
    var n: nat := first.record[h];
    var chain := GrownTo(first.lookup.finalized, n, h) + [h];
    var settled := Moment(true, chain, chain);
    later := Call(settled, true, RecordOf(chain), settled);
    assert chain[n] == h && Distinct(chain);
  }

  /** The chain grown to n blocks by hashes that are neither on it nor h. */
  function GrownTo(chain: seq<Hash>, n: nat, h: Hash): (grown: seq<Hash>)
    requires |chain| <= n
    ensures |grown| == n && chain <= grown
    ensures Distinct(chain) && h !in chain ==> Distinct(grown) && h !in grown
  {
    var base := Above(chain + [h]);
    assert h in chain + [h] && forall i :: 0 <= i < |chain| ==> chain[i] in chain + [h];
    chain + seq(n - |chain|, i => base + i)
  }

  /** A hash above all of these. */
  function Above(hashes: seq<Hash>): (r: Hash)
    ensures forall x :: x in hashes ==> x < r
  {
    if hashes == [] then 0
    else
      assert forall x :: x in hashes ==> x == hashes[0] || x in hashes[1..];
      Max(Above(hashes[1..]), hashes[0] + 1)
  }

  /** The height of every block of the chain. */
  function RecordOf(chain: seq<Hash>): (record: map<Hash, U32>)
    requires |chain| <= U32_RANGE
    ensures forall i :: 0 <= i < |chain| ==> chain[i] in record
    ensures Distinct(chain) ==> forall i :: 0 <= i < |chain| ==> record[chain[i]] == i
  {
    if chain == [] then map[]
    else
      var last: U32 := |chain| - 1;
      RecordOf(chain[..last])[chain[last] := last]
  }

  /** Above finality it is not for good: a discarded block can come back and be finalised. */
  lemma DiscardedCanComeBack() returns (first: Call, later: Call, h: Hash)
    ensures Sound(first) && KeepsFinalized(first) && Sound(later) && KeepsFinalized(later)
    ensures first.lookup.finalized <= later.info.finalized && RecordsAgree(first, later, h)
    ensures ReportedState(first, ByHash(h)) == Ok(Discarded)
    ensures ReportedState(later, ByHash(h)) == Ok(Finalized)
  {
    h := 11;
    var forked := Moment(true, [10], [10, 12]);
    first := Call(forked, true, map[10 := 0, 11 := 1, 12 := 1], forked);
    later := ComesBack(first, h);
  }
}
