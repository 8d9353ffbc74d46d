/**
 How far a receipt search looks, against how long the transaction stays valid. The search adds the
 period the user gave to the birth block; the era rounds that period up to a power of two.
 */
module ReceiptWindow {
  import opened Prelude
  import opened Rpc
  import opened Receipts
  import opened Mortality

  ghost predicate ValidAt(birth: U32, period: U64, h: nat) {
    birth <= h < birth + RoundedPeriod(period) && h <= U32_MAX
  }

  /** Every height at which the transaction is still valid is one the search inspects. */
  ghost predicate CoversValidity(birth: U32, period: U64) {
    forall h: nat :: ValidAt(birth, period, h) ==> h <= LastInspected(birth, period)
  }

  /** The search covers the validity window exactly when rounding added at most two blocks to the period. */
  lemma SearchCoversValidityIff(birth: U32, period: U64)
    ensures CoversValidity(birth, period) <==>
      || RoundedPeriod(period) <= period % U32_RANGE + 2
      || U32_MAX <= birth + period % U32_RANGE + 1
  {
    if RoundedPeriod(period) > period % U32_RANGE + 2 && U32_MAX > birth + period % U32_RANGE + 1 {
      var missed: U32 := birth + period % U32_RANGE + 2;
      assert ValidAt(birth, period, missed) && missed > LastInspected(birth, period);
    }
  }

  /** A period of 33 is rounded up to 64: the search ends at height 34, and the transaction stays valid up to 63. */
  lemma PeriodOf33IsNotCovered()
    ensures RoundedPeriod(33) == 64 && LastInspected(0, 33) == 34 && ValidAt(0, 33, 63) && !CoversValidity(0, 33)
  {
    assert NextPow2(33) == 2 * NextPow2(17) == 4 * NextPow2(9) == 8 * NextPow2(5);
    assert NextPow2(5) == 2 * NextPow2(3) && NextPow2(3) == 2 * NextPow2(2) && NextPow2(2) == 2 * NextPow2(1);
  }

  /** The transaction is on the chain, at a height. */
  ghost predicate IncludedAt(chain: seq<Hash>, body: map<Hash, seq<Tx>>, txHash: Hash, h: nat) {
    h < |chain| && chain[h] in Holds(body, txHash)
  }

  /**
   A transaction that only enters blocks of its validity window has a receipt if and only if it was
   included no later than the last inspected height; so when the search covers the window, if and
   only if it was included at all.
   */
  lemma {:induction false} ReceiptIffIncludedInTime(
    chain: seq<Hash>, body: map<Hash, seq<Tx>>, nonces: map<Hash, U32>, who: Account, nonce: U32, txHash: Hash,
    birth: U32, period: U64, r: Option<Receipt>)
    requires CountsOrReaped(chain, body, nonces, who) && Names(chain, body, txHash, who, nonce)
    requires birth <= |chain| < U32_RANGE && NonceBefore(chain, nonces, birth) <= nonce
    requires UsedOnce(chain, body, who, nonce, birth)
    requires forall h: nat :: IncludedAt(chain, body, txHash, h) ==> ValidAt(birth, period, h)
    requires ReceiptOutcome(chain, body, Settles(body, nonces, txHash, nonce), txHash, birth,
                            LastInspected(birth, period), r)
    ensures r.Some? <==> exists h: nat :: IncludedAt(chain, body, txHash, h) && h <= LastInspected(birth, period)
    ensures CoversValidity(birth, period) ==> (r.Some? <==> exists h: nat :: IncludedAt(chain, body, txHash, h))
    ensures r.Some? ==> IncludedAt(chain, body, txHash, r.value.blockHeight)
  {
    var last := LastInspected(birth, period);
    ReceiptIffIncluded(chain, body, nonces, who, nonce, txHash, birth, last, r);
    if h: nat :| IncludedAt(chain, body, txHash, h) && h <= last {
      assert birth <= h && chain[h] in Holds(body, txHash);
    }
    if r.Some? {
      assert chain[r.value.blockHeight] in Holds(body, txHash);
      assert IncludedAt(chain, body, txHash, r.value.blockHeight);
    }
  }
}
