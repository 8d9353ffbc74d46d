/**
 The payload recovery map: which scalars of a block's data grid hold an application's stream, where
 each is kept, and what bytes the cell holds.
 */
module RecoveryMap {
  import opened Prelude
  import opened Mortality

  const DATA_CHUNK_SIZE: nat := 31
  const SCALAR_SIZE: nat := 32

  // ---------------------------------------------------------------- the lookup

  datatype LookupItem = LookupItem(appId: U32, start: U32)

  datatype AppRange = AppRange(appId: U32, start: U32, end: U32, count: U32)

  function AppBefore(index: seq<LookupItem>, i: nat): U32
    requires i <= |index|
  {
    if i == 0 then 0 else index[i - 1].appId
  }

  function StartBefore(index: seq<LookupItem>, i: nat): U32
    requires i <= |index|
  {
    if i == 0 then 0 else index[i - 1].start
  }

  function RangeBetween(appId: U32, start: U32, end: U32): AppRange {
    AppRange(appId, start, end, SaturatingSub(end, start))
  }

  /** Where range i stops. */
  function EndOf(size: U32, index: seq<LookupItem>, i: nat): U32
    requires i <= |index|
  {
    if i == |index| then size else index[i].start
  }

  function RangeAt(size: U32, index: seq<LookupItem>, i: nat): AppRange
    requires i <= |index|
  {
    RangeBetween(AppBefore(index, i), StartBefore(index, i), EndOf(size, index, i))
  }

  /** One range up to each item, and one from the last item to the end if there is room. */
  function Expansion(size: U32, index: seq<LookupItem>): (ranges: seq<AppRange>)
    ensures |ranges| == |index| + (if StartBefore(index, |index|) < size then 1 else 0)
    ensures forall i :: 0 <= i < |ranges| ==> ranges[i] == RangeAt(size, index, i)
  {
    seq(|index| + (if StartBefore(index, |index|) < size then 1 else 0),
        i requires 0 <= i <= |index| => RangeAt(size, index, i))
  }

  /** Every range of any lookup, well-formed or not: whose it is, where it starts and ends, and its count of scalars. */
  lemma {:induction false} ExpansionEntries(size: U32, index: seq<LookupItem>, i: nat)
    requires i < |Expansion(size, index)|
    ensures |Expansion(size, index)| ==
      if (if index == [] then 0 else index[|index| - 1].start) < size then |index| + 1 else |index|
    ensures var range := Expansion(size, index)[i];
      && range.appId == (if i == 0 then 0 else index[i - 1].appId)
      && range.start == (if i == 0 then 0 else index[i - 1].start)
      && range.end == (if i == |index| then size else index[i].start)
      && range.count == (if range.end < range.start then 0 else range.end - range.start)
  {
  }

  method ExpandLookup(size: U32, index: seq<LookupItem>) returns (ranges: seq<AppRange>)
    ensures ranges == Expansion(size, index)
  {
    ranges := [];
    var prevAppId: U32, offset: U32 := 0, 0;
    for i := 0 to |index|
      invariant |ranges| == i && prevAppId == AppBefore(index, i) && offset == StartBefore(index, i)
      invariant forall j :: 0 <= j < i ==> ranges[j] == RangeAt(size, index, j)
    {
      var item := index[i];
      ranges := ranges + [AppRange(prevAppId, offset, item.start, SaturatingSub(item.start, offset))];
      prevAppId, offset := item.appId, item.start;
    }
    if offset < size {
      ranges := ranges + [AppRange(prevAppId, offset, size, SaturatingSub(size, offset))];
    }
  }

  /** Starts never go back, and stay within the block. */
  ghost predicate WellFormed(size: U32, index: seq<LookupItem>) {
    && (forall i, j :: 0 <= i <= j < |index| ==> index[i].start <= index[j].start)
    && (forall i :: 0 <= i < |index| ==> index[i].start <= size)
  }

  /** The scalars counted in the first n ranges. */
  function CountSum(ranges: seq<AppRange>, n: nat): nat
    requires n <= |ranges|
  {
    if n == 0 then 0 else CountSum(ranges, n - 1) + ranges[n - 1].count
  }

  /** The app of the last item that starts at or before s; 0 if none does. */
  function LastAppAt(index: seq<LookupItem>, s: nat): U32 {
    if index == [] then 0
    else
      var last := index[|index| - 1];
      if last.start <= s then last.appId else LastAppAt(index[..|index| - 1], s)
  }

  /** The ranges follow one another from 0 to size without gap or overlap. */
  ghost predicate Tiles(ranges: seq<AppRange>, size: nat) {
    && (forall i :: 0 <= i < |ranges| ==> ranges[i].start == EndBefore(ranges, i) <= ranges[i].end)
    && (forall i :: 0 <= i < |ranges| ==> ranges[i].count == ranges[i].end - ranges[i].start)
    && EndBefore(ranges, |ranges|) == size
  }

  function EndBefore(ranges: seq<AppRange>, i: nat): nat
    requires i <= |ranges|
  {
    if i == 0 then 0 else ranges[i - 1].end
  }

  lemma TilesSum(ranges: seq<AppRange>, size: nat, n: nat)
    requires Tiles(ranges, size) && n <= |ranges|
    ensures CountSum(ranges, n) == EndBefore(ranges, n)
  {
    if n == 0 {
    } else {
      TilesSum(ranges, size, n - 1);
    }
  }

  lemma LastAppIs(index: seq<LookupItem>, i: nat, s: nat)
    requires i <= |index| && StartBefore(index, i) <= s
    requires forall j :: i <= j < |index| ==> s < index[j].start
    ensures LastAppAt(index, s) == AppBefore(index, i)
  {
    if i == |index| {
    } else {
      LastAppIs(index[..|index| - 1], i, s);
    }
  }

  lemma ExpansionTiles(size: U32, index: seq<LookupItem>)
    requires WellFormed(size, index)
    ensures Tiles(Expansion(size, index), size)
  {
    hide Expansion;
  }

  lemma RangeCarriesApp(size: U32, index: seq<LookupItem>, i: nat, s: nat)
    requires WellFormed(size, index) && i < |Expansion(size, index)|
    requires var range := Expansion(size, index)[i]; range.start <= s < range.end
    ensures Expansion(size, index)[i].appId == LastAppAt(index, s)
  {
    hide LastAppAt, Expansion;
    assert Expansion(size, index)[i] == RangeAt(size, index, i);
    LastAppIs(index, i, s);
  }

  /** For a well-formed lookup the ranges tile the block, and each scalar's range carries the right app. */
  lemma {:induction false} LookupTilesBlock(size: U32, index: seq<LookupItem>)
    requires WellFormed(size, index)
    ensures var ranges := Expansion(size, index);
      && Tiles(ranges, size) && CountSum(ranges, |ranges|) == size
      && forall i, s :: 0 <= i < |ranges| && ranges[i].start <= s < ranges[i].end ==>
        ranges[i].appId == LastAppAt(index, s)
  {
    hide LastAppAt, CountSum, Expansion, WellFormed;
    var ranges := Expansion(size, index);
    ExpansionTiles(size, index);
    TilesSum(ranges, size, |ranges|);
    assert EndBefore(ranges, |ranges|) == size;
    hide Tiles, EndBefore;
    forall i, s | 0 <= i < |ranges| && ranges[i].start <= s < ranges[i].end
      ensures ranges[i].appId == LastAppAt(index, s)
    {
      RangeCarriesApp(size, index, i, s);
    }
  }

  // ---------------------------------------------------------------- the grid

  /** `next_power_of_two` on 32 bits: past 2^31 it wraps to 0. */
  function NextPowerOfTwoU32(n: U32): U32 {
    if NextPow2(n) < U32_RANGE then NextPow2(n) else 0
  }

  function ComputedGridRows(totalScalars: U32, runtimeCols: U32): Result<U32> {
    if runtimeCols == 0 then Err(ValidationFailed)
    else
      CeilBelowRange(totalScalars, runtimeCols);
      var currentHeight: U32 := SaturatingAdd(totalScalars, runtimeCols - 1) / runtimeCols;
      Ok(NextPowerOfTwoU32(Max(currentHeight, 1)))
  }

  lemma CeilBelowRange(total: U32, cols: U32)
    requires cols > 0
    ensures 0 <= SaturatingAdd(total, cols - 1) / cols < U32_RANGE
  {
    QuotientBound(SaturatingAdd(total, cols - 1), cols);
  }

  lemma QuotientBound(n: nat, d: nat)
    requires d > 0
    ensures 0 <= n / d <= n && n / d * d <= n < n / d * d + d
  {
    assert n == n / d * d + n % d;
    MulMonotone(1, d, n / d);
  }

  /** The least power of two whose grid has room for every scalar. */
  ghost predicate LeastGridRows(total: nat, cols: nat, rows: nat) {
    && (exists e :: rows == Pow(2, e))
    && total <= rows * cols
    && (forall f :: 0 <= f && total <= Pow(2, f) * cols ==> rows <= Pow(2, f))
  }

  /** The rows needed, rounded up. */
  function RowsNeeded(total: nat, cols: nat): nat
    requires cols > 0
  {
    QuotientBound(total + cols - 1, cols);
    Max((total + cols - 1) / cols, 1)
  }

  lemma RoomIff(total: nat, cols: nat, rows: nat)
    requires cols > 0 && rows > 0
    ensures total <= rows * cols <==> RowsNeeded(total, cols) <= rows
  {
    var q := (total + cols - 1) / cols;
    QuotientBound(total + cols - 1, cols);
    if q <= rows { MulMonotone(q, rows, cols); } else { MulMonotone(rows + 1, q, cols); }
  }

  lemma LeastGridRowsIs(total: nat, cols: nat, rows: nat)
    requires cols > 0
    ensures LeastGridRows(total, cols, rows) <==> rows == NextPow2(RowsNeeded(total, cols))
  {
    var n := RowsNeeded(total, cols);
    var e := NextPow2IsLeast(n);
    forall f: nat ensures Pow(2, f) > 0 && (total <= Pow(2, f) * cols <==> n <= Pow(2, f)) {
      Pow2Grows(0, f);
      RoomIff(total, cols, Pow(2, f));
    }
  }

  /** The sum saturated, the truncated height is a power of two, and one more row is needed. */
  predicate LosesARow(total: U32, cols: U32)
    requires cols > 0
  {
    total + cols - 1 > U32_MAX && NextPow2(U32_MAX / cols) == U32_MAX / cols && total > U32_MAX / cols * cols
  }

  /** The result wraps: more than 2^31 rows of one column. */
  predicate Wraps(total: U32, cols: U32) { cols == 1 && total > 0x8000_0000 }

  /** `computed_grid_rows` is the least power of two that holds all scalars, except in exactly these two cases. */
  lemma {:induction false} GridRowsLeastIff(total: U32, cols: U32)
    requires cols > 0
    ensures LeastGridRows(total, cols, ComputedGridRows(total, cols).value)
       <==> (!LosesARow(total, cols) && !Wraps(total, cols))
    ensures LosesARow(total, cols) ==> ComputedGridRows(total, cols).value == U32_MAX / cols
    ensures Wraps(total, cols) ==> ComputedGridRows(total, cols).value == 0
  {
    var needed, got := RowsNeeded(total, cols), Max(SaturatingAdd(total, cols - 1) / cols, 1);
    LeastGridRowsIs(total, cols, ComputedGridRows(total, cols).value);
    var _ := NextPow2IsLeast(needed);
    if cols == 1 {
      assert needed == got == Max(total, 1);
      NextPow2Range(needed);
    } else {
      HalfRange(total, cols);
      NextPow2Range(needed);
      NextPow2Range(got);
      if total + cols - 1 > U32_MAX {
        SaturatedHeight(total, cols);
        NextPow2Successor(got);
      }
    }
  }

  /** Both cases happen: a grid with room for one scalar less than asked for, and one with no rows at all. */
  lemma GridRowsFallShort()
    ensures LosesARow(0x8000_0001, 0x8000_0000) && ComputedGridRows(0x8000_0001, 0x8000_0000) == Ok(1)
    ensures Wraps(0x8000_0001, 1) && ComputedGridRows(0x8000_0001, 1) == Ok(0)
  {
    NextPow2Range(0x8000_0001);
  }

  lemma NextPow2Range(n: nat)
    requires n <= U32_RANGE
    ensures NextPow2(n) < U32_RANGE <==> n <= 0x8000_0000
    ensures NextPow2(n) >= n && NextPow2(n) > 0
  {
    Pow2Values();
    assert Pow(2, 31) == 0x8000_0000 by { Pow2Sum(16, 15); }
    assert Pow(2, 32) == U32_RANGE;
    var e := NextPow2IsLeast(n);
    Pow2Grows(0, e);
    if e <= 31 { Pow2Grows(e, 31); } else { Pow2Grows(32, e); }
  }

  lemma Pow2Sum(a: nat, b: nat)
    ensures Pow(2, a + b) == Pow(2, a) * Pow(2, b)
  {
    if b == 0 {
    } else {
      Pow2Sum(a, b - 1);
    }
  }

  /** Two columns or more leave at most 2^31 rows. */
  lemma HalfRange(total: U32, cols: U32)
    requires cols >= 2
    ensures RowsNeeded(total, cols) <= 0x8000_0000
  {
    RoomIff(total, cols, 0x8000_0000);
  }

  /** When the sum saturates, the height found is the one needed or one less. */
  lemma SaturatedHeight(total: U32, cols: U32)
    requires cols >= 2 && total + cols - 1 > U32_MAX
    ensures var q := U32_MAX / cols; q >= 1 && RowsNeeded(total, cols) == if total > q * cols then q + 1 else q
  {
    var q := U32_MAX / cols;
    QuotientBound(U32_MAX, cols);
    assert q * cols > U32_MAX - cols >= 0;
    RoomIff(total, cols, q);
    RoomIff(total, cols, q + 1);
    assert (q + 1) * cols == q * cols + cols;
    if q > 1 {
      RoomIff(total, cols, q - 1);
      assert (q - 1) * cols == q * cols - cols;
    }
  }

  /** One more row changes the rounded height exactly when the height was a power of two. */
  lemma NextPow2Successor(n: nat)
    requires n >= 1
    ensures NextPow2(n + 1) == NextPow2(n) <==> NextPow2(n) != n
  {
    var d := NextPow2IsLeast(n);
    var e := NextPow2IsLeast(n + 1);
    if NextPow2(n) > n { assert n + 1 <= Pow(2, d); }
    assert n <= Pow(2, e);
  }
}
