/** Where each scalar of the grid is kept, what its cell holds, and getting the stream back. */
module Custody {
  import opened Prelude
  import opened Scale
  import opened RecoveryMap
  import Hex

  // ---------------------------------------------------------------- custody slots

  /** The store column counts that are supported. */
  predicate SupportedCols(custodyCols: U32) { custodyCols == 8 || custodyCols == 16 || custodyCols == 32 }

  lemma SupportedColsAre(custodyCols: U32)
    ensures SupportedCols(custodyCols) <==> custodyCols in {8, 16, 32}
  {
  }

  /** Extended coordinates are twice the original ones, on 32 bits. */
  function Extended(coordinate: U32): U32 { coordinate * 2 % U32_RANGE }

  function CustodyCol(extCol: U32, custodyCols: U32): nat
    requires custodyCols > 0
  {
    extCol / 2 % custodyCols
  }

  function Bands(runtimeCols: U32, custodyCols: U32): (b: nat)
    requires custodyCols > 0
    ensures b > 0
  {
    Max(SaturatingAdd(runtimeCols, custodyCols - 1) / custodyCols, 1)
  }

  function VirtualRow(row: U32, col: U32, runtimeCols: U32, custodyCols: U32): (v: nat)
    requires custodyCols > 0
  {
    QuotientBound(col, custodyCols);
    row * Bands(runtimeCols, custodyCols) + col / custodyCols
  }

  /** The band count is computed from a sum that saturated. */
  predicate Saturates(runtimeCols: U32, custodyCols: U32) { runtimeCols + custodyCols - 1 > U32_MAX }

  /** The cell kept at a custody column and virtual row. */
  function CellAt(custodyCol: nat, virtualRow: nat, runtimeCols: U32, custodyCols: U32): (nat, nat)
    requires custodyCols > 0
  {
    QuotientBound(virtualRow, Bands(runtimeCols, custodyCols));
    var bands := Bands(runtimeCols, custodyCols);
    if Saturates(runtimeCols, custodyCols) then (0, virtualRow * custodyCols + custodyCol)
    else (virtualRow / bands, virtualRow % bands * custodyCols + custodyCol)
  }

  /** The band count is the least number of bands of store columns that holds every column. */
  lemma {:induction false} BandsAreLeast(runtimeCols: U32, custodyCols: U32, b: nat)
    requires custodyCols > 0 && runtimeCols > 0 && !Saturates(runtimeCols, custodyCols)
    ensures runtimeCols <= Bands(runtimeCols, custodyCols) * custodyCols
    ensures runtimeCols <= b * custodyCols ==> Bands(runtimeCols, custodyCols) <= b
  {
    QuotientBound(runtimeCols + custodyCols - 1, custodyCols);
    var bands := (runtimeCols + custodyCols - 1) / custodyCols;
    if b < bands {
      MulMonotone(b + 1, bands, custodyCols);
      assert (b + 1) * custodyCols == b * custodyCols + custodyCols;
    }
    assert bands == 0 ==> bands * custodyCols == 0;
  }

  /** Where the sum saturates it is that of 2^32 - 1, and the bands may be one short. */
  lemma SaturatedBands(runtimeCols: U32, custodyCols: U32)
    requires SupportedCols(custodyCols) && Saturates(runtimeCols, custodyCols)
    ensures custodyCols == 8 ==> Bands(runtimeCols, custodyCols) == 0x1FFF_FFFF
    ensures custodyCols == 16 ==> Bands(runtimeCols, custodyCols) == 0x0FFF_FFFF
    ensures custodyCols == 32 ==> Bands(runtimeCols, custodyCols) == 0x07FF_FFFF
  {
  }

  /**
   Virtual rows from the first cell on: 0 for the columns of the first band, one more for each band to the
   right, and as many more for each row down as there are bands.
   */
  lemma {:induction false} VirtualRowSteps(row: U32, col: U32, runtimeCols: U32, custodyCols: U32, b: nat)
    requires custodyCols > 0 && runtimeCols > 0 && !Saturates(runtimeCols, custodyCols)
    requires runtimeCols <= b * custodyCols && forall c: nat :: runtimeCols <= c * custodyCols ==> b <= c
    ensures col < custodyCols ==> VirtualRow(0, col, runtimeCols, custodyCols) == 0
    ensures col + custodyCols < U32_RANGE ==>
      VirtualRow(row, col + custodyCols, runtimeCols, custodyCols) == VirtualRow(row, col, runtimeCols, custodyCols) + 1
    ensures row + 1 < U32_RANGE ==>
      VirtualRow(row + 1, col, runtimeCols, custodyCols) == VirtualRow(row, col, runtimeCols, custodyCols) + b
  {
    hide Bands;
    BandsAre(runtimeCols, custodyCols, b);
    QuotientBound(col, custodyCols);
    assert col == col / custodyCols * custodyCols + col % custodyCols;
    assert (col / custodyCols + 1) * custodyCols == col / custodyCols * custodyCols + custodyCols;
    DivModUnique(col / custodyCols + 1, custodyCols, col % custodyCols);
    assert (row + 1) * b == row * b + b;
    if col < custodyCols { DivModUnique(0, custodyCols, col); }
  }

  /** 256 columns over 8 store columns are 32 bands, so the second row starts at virtual row 32. */
  lemma SecondRowOf256()
    ensures VirtualRow(1, 0, 256, 8) == 32 && VirtualRow(1, 255, 256, 8) == 63 && VirtualRow(2, 9, 256, 8) == 65
  {
  }

  /**
   The cells of the first store column take the virtual rows 0 up to rows times bands without a gap, in
   scalar order: the j-th band of a row is row * b + j.
   */
  lemma {:induction false} StoreColumnTakesEveryRow(rows: U32, runtimeCols: U32, custodyCols: U32, b: nat, v: nat)
    requires SupportedCols(custodyCols) && runtimeCols > 0 && !Saturates(runtimeCols, custodyCols)
    requires rows * runtimeCols <= U32_MAX
    requires runtimeCols <= b * custodyCols && forall c: nat :: runtimeCols <= c * custodyCols ==> b <= c
    requires v < rows * b
    ensures b > 0 && 0 <= v / b < rows && 0 <= v % b * custodyCols < runtimeCols
    ensures VirtualRow(v / b, v % b * custodyCols, runtimeCols, custodyCols) == v
    ensures CustodyCol(Extended(v % b * custodyCols), custodyCols) == 0
  {
    hide Bands, CustodyCol, Extended;
    ZeroTimes(b, custodyCols);
    BandInGrid(rows, b, v);
    BandsAre(runtimeCols, custodyCols, b);
    assert !(runtimeCols <= v % b * custodyCols);
    BandCol(v % b, custodyCols);
    CustodyColIs(v % b * custodyCols, custodyCols);
  }

  lemma ZeroTimes(b: nat, c: nat)
    ensures b == 0 ==> b * c == 0
    ensures b * c >= 0
  {
  }

  lemma BandInGrid(rows: nat, b: nat, v: nat)
    requires b > 0 && v < rows * b
    ensures 0 <= v / b < rows && 0 <= v % b < b && v / b * b + v % b == v
  {
    assert v == v / b * b + v % b;
    if v / b >= rows { MulMonotone(rows, v / b, b); }
  }

  lemma BandCol(j: nat, custodyCols: nat)
    requires custodyCols > 0
    ensures j * custodyCols >= 0 && j * custodyCols / custodyCols == j && j * custodyCols % custodyCols == 0
  {
    DivModUnique(j, custodyCols, 0);
  }

  lemma BandsAre(runtimeCols: U32, custodyCols: U32, b: nat)
    requires custodyCols > 0 && runtimeCols > 0 && !Saturates(runtimeCols, custodyCols)
    requires runtimeCols <= b * custodyCols && forall c: nat :: runtimeCols <= c * custodyCols ==> b <= c
    ensures Bands(runtimeCols, custodyCols) == b
  {
    hide Bands;
    BandsAreLeast(runtimeCols, custodyCols, b);
  }

  /** And those cells come in scalar order: the next virtual row is a later scalar. */
  lemma StoreColumnInScalarOrder(runtimeCols: U32, custodyCols: U32, b: nat, v: nat)
    requires custodyCols > 0 && b > 0 && 0 <= v % b * custodyCols < runtimeCols
    ensures v / b * runtimeCols + v % b * custodyCols < (v + 1) / b * runtimeCols + (v + 1) % b * custodyCols
  {
    var row, j := v / b, v % b;
    assert v == row * b + j;
    if j + 1 < b {
      DivModUnique(row, b, j + 1);
      assert (j + 1) * custodyCols == j * custodyCols + custodyCols;
    } else {
      DivModUnique(row + 1, b, 0);
      assert (row + 1) * b == row * b + b;
      assert (row + 1) * runtimeCols == row * runtimeCols + runtimeCols;
    }
  }

  /** Doubling on 32 bits drops a bit the column count divides, so the store column is the column modulo it. */
  lemma CustodyColIs(col: U32, custodyCols: U32)
    requires SupportedCols(custodyCols)
    ensures CustodyCol(Extended(col), custodyCols) == col % custodyCols < custodyCols
  {
    var half := Extended(col) / 2;
    assert half == if col < 0x8000_0000 then col else col - 0x8000_0000;
    if col >= 0x8000_0000 {
      var whole := if custodyCols == 8 then 0x1000_0000 else if custodyCols == 16 then 0x800_0000 else 0x400_0000;
      var q, r := half / custodyCols, half % custodyCols;
      assert half == q * custodyCols + r;
      assert col == (q + whole) * custodyCols + r;
      DivModUnique(q + whole, custodyCols, r);
    }
  }

  /** Every column has a band. */
  lemma ColumnInBand(col: U32, runtimeCols: U32, custodyCols: U32)
    requires custodyCols > 0 && col < runtimeCols && !Saturates(runtimeCols, custodyCols)
    ensures 0 <= col / custodyCols < Bands(runtimeCols, custodyCols)
  {
    var b := (runtimeCols + custodyCols - 1) / custodyCols;
    QuotientBound(runtimeCols + custodyCols - 1, custodyCols);
    QuotientBound(col, custodyCols);
    if col / custodyCols >= b { MulMonotone(b, col / custodyCols, custodyCols); }
  }

  /** A grid of more than 2^31 columns has a single row. */
  lemma SaturatedGridHasOneRow(rows: U32, runtimeCols: U32, custodyCols: U32)
    requires SupportedCols(custodyCols) && Saturates(runtimeCols, custodyCols) && rows * runtimeCols <= U32_MAX
    ensures rows <= 1
  {
    if rows >= 2 { MulMonotone(2, rows, runtimeCols); }
  }

  /** The slot of a grid cell determines the cell. */
  lemma {:induction false} SlotDeterminesCell(row: U32, col: U32, rows: U32, runtimeCols: U32, custodyCols: U32)
    requires SupportedCols(custodyCols) && row < rows && col < runtimeCols && rows * runtimeCols <= U32_MAX
    ensures
      var custodyCol := CustodyCol(Extended(col), custodyCols);
      var virtualRow := VirtualRow(row, col, runtimeCols, custodyCols);
      CellAt(custodyCol, virtualRow, runtimeCols, custodyCols) == (row, col)
  {
    CustodyColIs(col, custodyCols);
    if Saturates(runtimeCols, custodyCols) {
      SaturatedGridHasOneRow(rows, runtimeCols, custodyCols);
    } else {
      ColumnInBand(col, runtimeCols, custodyCols);
      DivModUnique(row, Bands(runtimeCols, custodyCols), col / custodyCols);
    }
    assert col == col / custodyCols * custodyCols + col % custodyCols;
  }

  /** No two scalars of the grid are kept in the same slot. */
  lemma {:induction false} ScalarsDoNotShareSlots(s: U32, t: U32, rows: U32, runtimeCols: U32, custodyCols: U32)
    requires SupportedCols(custodyCols) && runtimeCols > 0
    requires s < rows * runtimeCols <= U32_MAX && t < rows * runtimeCols && s != t
    ensures var (i, a) := Coordinates(s, runtimeCols); var (j, b) := Coordinates(t, runtimeCols);
      || CustodyCol(Extended(a), custodyCols) != CustodyCol(Extended(b), custodyCols)
      || VirtualRow(i, a, runtimeCols, custodyCols) != VirtualRow(j, b, runtimeCols, custodyCols)
  {
    ScalarInGrid(s, rows, runtimeCols);
    ScalarInGrid(t, rows, runtimeCols);
    var (i, a) := Coordinates(s, runtimeCols);
    var (j, b) := Coordinates(t, runtimeCols);
    SlotDeterminesCell(i, a, rows, runtimeCols, custodyCols);
    SlotDeterminesCell(j, b, rows, runtimeCols, custodyCols);
  }

  /** A scalar's row and column. */
  function Coordinates(scalar: U32, runtimeCols: U32): (U32, U32)
    requires runtimeCols > 0
  {
    QuotientBound(scalar, runtimeCols);
    (scalar / runtimeCols, scalar % runtimeCols)
  }

  lemma ScalarInGrid(s: U32, rows: U32, runtimeCols: U32)
    requires runtimeCols > 0 && s < rows * runtimeCols
    ensures var (i, a) := Coordinates(s, runtimeCols); i < rows && a < runtimeCols && i * runtimeCols + a == s
  {
    var i := s / runtimeCols;
    QuotientBound(s, runtimeCols);
    assert s == i * runtimeCols + s % runtimeCols;
    if i >= rows { MulMonotone(rows, i, runtimeCols); }
  }

  /** Virtual rows stay below rows times bands exactly when the band count did not saturate; they never overflow. */
  lemma {:induction false} VirtualRowBoundIff(rows: U32, runtimeCols: U32, custodyCols: U32)
    requires SupportedCols(custodyCols) && rows > 0 && runtimeCols > 0 && rows * runtimeCols <= U32_MAX
    ensures !Saturates(runtimeCols, custodyCols) <==>
      forall row: U32, col: U32 :: row < rows && col < runtimeCols ==>
        VirtualRow(row, col, runtimeCols, custodyCols) < rows * Bands(runtimeCols, custodyCols)
    ensures forall row: U32, col: U32 :: row < rows && col < runtimeCols ==>
      VirtualRow(row, col, runtimeCols, custodyCols) <= U32_MAX
  {
    var bands := Bands(runtimeCols, custodyCols);
    forall row: U32, col: U32 | row < rows && col < runtimeCols
      ensures VirtualRow(row, col, runtimeCols, custodyCols) <= U32_MAX
      ensures !Saturates(runtimeCols, custodyCols) ==> VirtualRow(row, col, runtimeCols, custodyCols) < rows * bands
    {
      VirtualRowFits(row, col, rows, runtimeCols, custodyCols);
    }
    if Saturates(runtimeCols, custodyCols) {
      SaturatedGridHasOneRow(rows, runtimeCols, custodyCols);
      LastColumnBeyondBands(runtimeCols, custodyCols);
      assert VirtualRow(0, runtimeCols - 1, runtimeCols, custodyCols) >= rows * bands;
    }
  }

  /** It does happen: in the widest grid of one row the last column is kept beyond the bands. */
  lemma WidestGridLeavesBands()
    ensures Saturates(U32_MAX, 8) && VirtualRow(0, U32_MAX - 1, U32_MAX, 8) >= 1 * Bands(U32_MAX, 8)
  {
  }

  lemma VirtualRowFits(row: U32, col: U32, rows: U32, runtimeCols: U32, custodyCols: U32)
    requires SupportedCols(custodyCols) && row < rows && col < runtimeCols && rows * runtimeCols <= U32_MAX
    ensures VirtualRow(row, col, runtimeCols, custodyCols) <= U32_MAX
    ensures !Saturates(runtimeCols, custodyCols) ==>
      VirtualRow(row, col, runtimeCols, custodyCols) < rows * Bands(runtimeCols, custodyCols)
  {
    var bands := Bands(runtimeCols, custodyCols);
    QuotientBound(col, custodyCols);
    if Saturates(runtimeCols, custodyCols) {
      SaturatedGridHasOneRow(rows, runtimeCols, custodyCols);
    } else {
      ColumnInBand(col, runtimeCols, custodyCols);
      MulMonotone(row + 1, rows, bands);
      assert (row + 1) * bands == row * bands + bands;
      assert bands <= runtimeCols by { BandsBelowCols(runtimeCols, custodyCols); }
      MulMonotone(bands, runtimeCols, rows);
      assert bands * rows == rows * bands && runtimeCols * rows == rows * runtimeCols;
    }
  }

  lemma BandsBelowCols(runtimeCols: U32, custodyCols: U32)
    requires SupportedCols(custodyCols) && runtimeCols > 0
    ensures Bands(runtimeCols, custodyCols) <= runtimeCols
  {
    if custodyCols == 8 {
    } else if custodyCols == 16 {
    } else {
    }
  }

  lemma LastColumnBeyondBands(runtimeCols: U32, custodyCols: U32)
    requires SupportedCols(custodyCols) && Saturates(runtimeCols, custodyCols)
    ensures runtimeCols > 0 && (runtimeCols - 1) / custodyCols >= Bands(runtimeCols, custodyCols)
  {
    if custodyCols == 8 {
    } else if custodyCols == 16 {
    } else {
    }
  }

  // ---------------------------------------------------------------- cells

  /** A chunk padded to a scalar, most significant byte first. */
  function ScalarToRuntimeCellHex(chunk: Bytes): Result<string> {
    if |chunk| > DATA_CHUNK_SIZE then Err(ValidationFailed)
    else Ok(Hex.Encode(Reversed(chunk + Zeros(SCALAR_SIZE - |chunk|))))
  }

  /** Zero-pads the stream to the scalars the lookup gives it. */
  function PadAppStream(stream: Bytes, scalarCount: U32): Result<Bytes> {
    var paddedSize := scalarCount * DATA_CHUNK_SIZE;
    if |stream| > paddedSize then Err(ValidationFailed) else Ok(stream + Zeros(paddedSize - |stream|))
  }

  datatype Cell = Cell(scalar: U32, row: U32, col: U32, extRow: U32, extCol: U32, virtualRow: nat, custodyCol: nat,
                       chunkHex: string, cellHex: string)

  /** Whether the cell is the given scalar's, with its slot and the given chunk of the stream. */
  ghost predicate CellFor(cell: Cell, scalar: U32, chunk: Bytes, runtimeCols: U32, custodyCols: U32)
    requires runtimeCols > 0 && custodyCols > 0
  {
    && cell.scalar == scalar && (cell.row, cell.col) == Coordinates(scalar, runtimeCols)
    && cell.extRow == Extended(cell.row) && cell.extCol == Extended(cell.col)
    && cell.custodyCol == CustodyCol(cell.extCol, custodyCols)
    && cell.virtualRow == VirtualRow(cell.row, cell.col, runtimeCols, custodyCols)
    && cell.chunkHex == Hex.Encode(chunk)
    && RecoverChunk(cell.cellHex) == Some(chunk)
  }

  /** Extended coordinates are even and twice the original, below 2^31. */
  lemma ExtendedIs(coordinate: U32)
    ensures coordinate < 0x8000_0000 ==> Extended(coordinate) == coordinate + coordinate
    ensures coordinate >= 0x8000_0000 ==> Extended(coordinate) == coordinate + coordinate - 0x1_0000_0000
  {
  }

  /**
   A cell's text: 64 digits that stand for 32 bytes, of which the last is the first byte of the chunk, each
   one before it the next byte of the chunk, and those in front of the whole chunk zero. Longer chunks are
   refused.
   */
  lemma {:induction false} CellLayout(chunk: Bytes)
    ensures ScalarToRuntimeCellHex(chunk).Ok? <==> |chunk| <= 31
    ensures |chunk| <= 31 ==>
      var text := ScalarToRuntimeCellHex(chunk).value;
      |text| == 64 && Hex.Decode(text).Some? &&
      var raw := Hex.Decode(text).value;
      && |raw| == 32
      && (forall i :: 0 <= i < |chunk| ==> raw[31 - i] == chunk[i])
      && (forall i :: 0 <= i < 32 - |chunk| ==> raw[i] == 0)
  {
    hide Hex.Encode, Hex.Decode;
    if |chunk| <= 31 {
      var padded := chunk + Zeros(32 - |chunk|);
      Hex.RoundTrip(Reversed(padded));
    }
  }

  /** Padding fills the stream with zeros up to 31 bytes a scalar, or refuses it. */
  lemma PaddedStream(stream: Bytes, scalarCount: U32)
    ensures PadAppStream(stream, scalarCount).Ok? <==> |stream| <= scalarCount * 31
    ensures PadAppStream(stream, scalarCount).Ok? ==>
      var padded := PadAppStream(stream, scalarCount).value;
      && |padded| == scalarCount * 31 && padded[..|stream|] == stream
      && forall i :: |stream| <= i < |padded| ==> padded[i] == 0
  {
  }

  /** What a reader does with a cell: decode it, turn it round, drop the pad byte. */
  function RecoverChunk(cellHex: string): Option<Bytes> {
    match Hex.Decode(cellHex)
    case None => None
    case Some(raw) => if |raw| == SCALAR_SIZE then Some(Reversed(raw)[..DATA_CHUNK_SIZE]) else None
  }

  /** The chunks of the cells in order. */
  function Recover(cells: seq<Cell>): Option<Bytes> {
    if cells == [] then Some([])
    else
      match (Recover(cells[..|cells| - 1]), RecoverChunk(cells[|cells| - 1].cellHex))
      case (Some(stream), Some(chunk)) => Some(stream + chunk)
      case _ => None
  }

  /** A full chunk comes back from its cell. */
  lemma ChunkRoundTrip(chunk: Bytes)
    requires |chunk| == DATA_CHUNK_SIZE
    ensures ScalarToRuntimeCellHex(chunk).Ok? && RecoverChunk(ScalarToRuntimeCellHex(chunk).value) == Some(chunk)
  {
    var raw := chunk + Zeros(1);
    Hex.RoundTrip(Reversed(raw));
    ReversedTwice(raw);
    assert raw[..DATA_CHUNK_SIZE] == chunk;
  }

  /** Chunk i of a padded stream. */
  function Chunk(padded: Bytes, i: nat): (c: Bytes)
    requires (i + 1) * DATA_CHUNK_SIZE <= |padded|
    ensures |c| == DATA_CHUNK_SIZE
  {
    padded[i * DATA_CHUNK_SIZE..(i + 1) * DATA_CHUNK_SIZE]
  }

  /** The loop over the scalars of the range; `covered` are the store columns with an active owner. */
  method BuildCells(padded: Bytes, range: AppRange, runtimeCols: U32, custodyCols: U32, covered: set<nat>)
    returns (r: Result<seq<Cell>>)
    requires runtimeCols > 0 && custodyCols > 0 && range.start <= range.end
    requires |padded| == (range.end - range.start) * DATA_CHUNK_SIZE
    ensures r.Ok? <==> forall s: U32 :: range.start <= s < range.end ==>
      StoreCol(s, runtimeCols, custodyCols) in covered
    ensures r.Ok? ==> |r.value| == range.end - range.start
    ensures r.Ok? ==> forall i :: 0 <= i < |r.value| ==>
      CellFor(r.value[i], range.start + i, Chunk(padded, i), runtimeCols, custodyCols)
  {
    var cells: seq<Cell> := [];
    for scalar: int := range.start to range.end
      invariant |cells| == scalar - range.start
      invariant forall s: U32 :: range.start <= s < scalar ==> StoreCol(s, runtimeCols, custodyCols) in covered
      invariant forall i :: 0 <= i < |cells| ==>
        CellFor(cells[i], range.start + i, Chunk(padded, i), runtimeCols, custodyCols)
    {
      var localIndex := scalar - range.start;
      var (row, col) := Coordinates(scalar, runtimeCols);
      var chunk := padded[localIndex * DATA_CHUNK_SIZE..localIndex * DATA_CHUNK_SIZE + DATA_CHUNK_SIZE];
      var extRow, extCol := Extended(row), Extended(col);
      var custodyCol := CustodyCol(extCol, custodyCols);
      var virtualRow := VirtualRow(row, col, runtimeCols, custodyCols);
      if custodyCol !in covered {
        assert StoreCol(scalar, runtimeCols, custodyCols) !in covered;
        return Err(ValidationFailed);
      }
      assert chunk == Chunk(padded, localIndex);
      ChunkRoundTrip(chunk);
      var cellHex := ScalarToRuntimeCellHex(chunk);
      var cell := Cell(scalar, row, col, extRow, extCol, virtualRow, custodyCol, Hex.Encode(chunk), cellHex.value);
      cells := cells + [cell];
    }
    r := Ok(cells);
  }

  /** The store column a scalar is kept in. */
  function StoreCol(scalar: U32, runtimeCols: U32, custodyCols: U32): nat
    requires runtimeCols > 0 && custodyCols > 0
  {
    CustodyCol(Extended(Coordinates(scalar, runtimeCols).1), custodyCols)
  }

  /** The cells of a range give the padded stream back. */
  lemma {:induction false} CellsGiveStream(cells: seq<Cell>, padded: Bytes, start: nat, runtimeCols: U32,
                                           custodyCols: U32, n: nat)
    requires runtimeCols > 0 && custodyCols > 0 && n <= |cells| && start + |cells| < U32_RANGE
    requires |padded| == |cells| * DATA_CHUNK_SIZE
    requires forall i :: 0 <= i < |cells| ==> CellFor(cells[i], start + i, Chunk(padded, i), runtimeCols, custodyCols)
    ensures Recover(cells[..n]) == Some(padded[..n * DATA_CHUNK_SIZE])
  {
    hide RecoverChunk;
    if n == 0 {
    } else {
      CellsGiveStream(cells, padded, start, runtimeCols, custodyCols, n - 1);
      assert cells[..n][..n - 1] == cells[..n - 1];
      assert CellFor(cells[n - 1], start + (n - 1), Chunk(padded, n - 1), runtimeCols, custodyCols);
      assert padded[..(n - 1) * DATA_CHUNK_SIZE] + Chunk(padded, n - 1) == padded[..n * DATA_CHUNK_SIZE];
    }
  }

  // ---------------------------------------------------------------- end to end

  /** The application stream: a vector of one transaction. */
  function AppStream(tx: Blob): Bytes { EncodeCompact(1) + EncodeBlob(tx) }

  /** A SCALE vector of byte vectors. */
  function DecodeBlobs(b: Bytes): Parsed<seq<Blob>> {
    match DecodeCompact(b, 4)
    case Bad => Bad
    case Parsed(n, rest) => DecodeManyBlobs(rest, n)
  }

  function DecodeManyBlobs(b: Bytes, n: nat): Parsed<seq<Blob>>
    decreases n
  {
    if n == 0 then Parsed([], b)
    else match DecodeBlob(b)
      case Bad => Bad
      case Parsed(v, rest) =>
        match DecodeManyBlobs(rest, n - 1)
        case Bad => Bad
        case Parsed(vs, rest') => Parsed([v] + vs, rest')
  }

  lemma AppStreamDecodes(tx: Blob, pad: Bytes)
    ensures DecodeBlobs(AppStream(tx) + pad) == Parsed([tx], pad)
  {
    hide DecodeCompact, EncodeCompact, DecodeBlob, EncodeBlob;
    Pow256Values();
    assert AppStream(tx) + pad == EncodeCompact(1) + (EncodeBlob(tx) + pad);
    CompactRoundTrip(1, 4, EncodeBlob(tx) + pad);
    BlobRoundTrip(tx, pad);
    assert DecodeManyBlobs(pad, 0) == Parsed([], pad);
    assert DecodeManyBlobs(EncodeBlob(tx) + pad, 1) == Parsed([tx] + [], pad);
    assert [tx] + [] == [tx];
  }

  /** The first range of the app that holds scalars, or else its first range. */
  function SelectRange(ranges: seq<AppRange>, appId: U32): Option<AppRange> {
    var full := FirstOf(ranges, appId, true);
    if full.Some? then full else FirstOf(ranges, appId, false)
  }

  function FirstOf(ranges: seq<AppRange>, appId: U32, nonEmpty: bool): (r: Option<AppRange>)
    ensures r.Some? ==> r.value in ranges && r.value.appId == appId && (nonEmpty ==> r.value.count > 0)
    ensures r.None? ==> forall x :: x in ranges && x.appId == appId ==> nonEmpty && x.count == 0
  {
    if ranges == [] then None
    else if ranges[0].appId == appId && (nonEmpty ==> ranges[0].count > 0) then Some(ranges[0])
    else FirstOf(ranges[1..], appId, nonEmpty)
  }

  /** The selected range is the app's first one with scalars; failing that, the app's first one. */
  lemma SelectedIsFirst(ranges: seq<AppRange>, appId: U32) returns (k: nat)
    requires exists x :: x in ranges && x.appId == appId
    ensures k < |ranges| && SelectRange(ranges, appId) == Some(ranges[k]) && ranges[k].appId == appId
    ensures forall j :: 0 <= j < k && ranges[j].appId == appId ==> ranges[j].count == 0 && ranges[k].count > 0
    ensures ranges[k].count == 0 ==> forall x :: x in ranges && x.appId == appId ==> x.count == 0
  {
    var full := FirstOf(ranges, appId, true);
    k := FirstOfIs(ranges, appId, full.Some?);
  }

  lemma FirstOfIs(ranges: seq<AppRange>, appId: U32, nonEmpty: bool) returns (k: nat)
    requires FirstOf(ranges, appId, nonEmpty).Some?
    ensures k < |ranges| && FirstOf(ranges, appId, nonEmpty) == Some(ranges[k])
    ensures forall j :: 0 <= j < k && ranges[j].appId == appId ==> nonEmpty && ranges[j].count == 0
  {
    if ranges[0].appId == appId && (nonEmpty ==> ranges[0].count > 0) {
      k := 0;
    } else {
      k := FirstOfIs(ranges[1..], appId, nonEmpty);
      k := k + 1;
    }
  }

  lemma RangeCounts(size: U32, index: seq<LookupItem>, range: AppRange)
    requires range in Expansion(size, index)
    ensures range.count == SaturatingSub(range.end, range.start)
  {
    var ranges := Expansion(size, index);
    var i :| 0 <= i < |ranges| && ranges[i] == range;
  }

  lemma StreamNotEmpty(tx: Blob)
    ensures |AppStream(tx)| > 0
  {
  }

  /** The cells of one map are all kept in different slots. */
  lemma SlotsDiffer(cells: seq<Cell>, padded: Bytes, range: AppRange, rows: U32, runtimeCols: U32, custodyCols: U32)
    requires SupportedCols(custodyCols) && runtimeCols > 0 && range.start <= range.end <= rows * runtimeCols <= U32_MAX
    requires |cells| == range.end - range.start && |padded| == |cells| * DATA_CHUNK_SIZE
    requires forall i :: 0 <= i < |cells| ==>
      CellFor(cells[i], range.start + i, Chunk(padded, i), runtimeCols, custodyCols)
    ensures forall i, j :: 0 <= i < j < |cells| ==>
      cells[i].custodyCol != cells[j].custodyCol || cells[i].virtualRow != cells[j].virtualRow
  {
    forall i, j | 0 <= i < j < |cells|
      ensures cells[i].custodyCol != cells[j].custodyCol || cells[i].virtualRow != cells[j].virtualRow
    {
      hide RecoverChunk, CustodyCol, VirtualRow, Coordinates;
      ScalarsDoNotShareSlots(range.start + i, range.start + j, rows, runtimeCols, custodyCols);
    }
  }

  /** What the mapping needs: the app in the lookup, a grid with room, a stream that fits, owners for every cell. */
  ghost predicate Mappable(lookupSize: U32, lookupIndex: seq<LookupItem>, appId: U32, runtimeRows: U32,
                           runtimeCols: U32, custodyCols: U32, covered: set<nat>, tx: Blob)
    requires custodyCols > 0
  {
    var selected := SelectRange(Expansion(lookupSize, lookupIndex), appId);
    && runtimeRows > 0 && runtimeCols > 0 && selected.Some?
    && var range, rows := selected.value, ComputedGridRows(lookupSize, runtimeCols).value;
    && rows <= runtimeRows && range.end <= rows * runtimeCols <= U32_MAX
    && |AppStream(tx)| <= range.count * DATA_CHUNK_SIZE
    && forall s: U32 :: range.start <= s < range.end ==> StoreCol(s, runtimeCols, custodyCols) in covered
  }

  /**
   When that is, with the grid's least row count and the app's selected range given: the runtime's grid has
   the rows, the range lies in the grid, the stream fits at 31 bytes a scalar, and every store column of the
   range has an owner.
   */
  lemma {:induction false} MappableIff(lookupSize: U32, lookupIndex: seq<LookupItem>, appId: U32, runtimeRows: U32,
                                       runtimeCols: U32, custodyCols: U32, covered: set<nat>, tx: Blob,
                                       rows: nat, range: AppRange)
    requires SupportedCols(custodyCols) && runtimeCols > 0
    requires !LosesARow(lookupSize, runtimeCols) && !Wraps(lookupSize, runtimeCols)
    requires LeastGridRows(lookupSize, runtimeCols, rows)
    requires SelectRange(Expansion(lookupSize, lookupIndex), appId) == Some(range)
    ensures Mappable(lookupSize, lookupIndex, appId, runtimeRows, runtimeCols, custodyCols, covered, tx) <==>
      && 0 < runtimeRows && rows <= runtimeRows
      && range.end <= rows * runtimeCols <= 0xFFFF_FFFF
      && |EncodeCompact(1)| + |EncodeCompact(|tx|)| + |tx| <= range.count * 31
      && forall s: U32 :: range.start <= s < range.end ==> InStoreColumn(s, runtimeCols, custodyCols, covered)
  {
    hide ComputedGridRows, LeastGridRows, SelectRange, Expansion, EncodeCompact, InStoreColumn, StoreCol;
    GridRowsAnswer(lookupSize, runtimeCols);
    GridRowsLeastIff(lookupSize, runtimeCols);
    LeastGridRowsIs(lookupSize, runtimeCols, rows);
    LeastGridRowsIs(lookupSize, runtimeCols, ComputedGridRows(lookupSize, runtimeCols).value);
    forall s: U32
      ensures StoreCol(s, runtimeCols, custodyCols) in covered <==> InStoreColumn(s, runtimeCols, custodyCols, covered)
    {
      StoreColIs(s, runtimeCols, custodyCols, covered);
    }
  }

  /** A scalar's column modulo the store columns is one with an owner. */
  ghost predicate InStoreColumn(s: U32, runtimeCols: U32, custodyCols: U32, covered: set<nat>)
    requires runtimeCols > 0 && custodyCols > 0
  {
    exists c: nat :: c in covered && c == s % runtimeCols % custodyCols
  }

  lemma StoreColIs(s: U32, runtimeCols: U32, custodyCols: U32, covered: set<nat>)
    requires SupportedCols(custodyCols) && runtimeCols > 0
    ensures StoreCol(s, runtimeCols, custodyCols) == s % runtimeCols % custodyCols
    ensures StoreCol(s, runtimeCols, custodyCols) in covered <==> InStoreColumn(s, runtimeCols, custodyCols, covered)
  {
    CustodyColIs(Coordinates(s, runtimeCols).1, custodyCols);
  }

  /** Without columns, or without a range of the app, there is nothing to map. */
  lemma NotMappable(lookupSize: U32, lookupIndex: seq<LookupItem>, appId: U32, runtimeRows: U32,
                    runtimeCols: U32, custodyCols: U32, covered: set<nat>, tx: Blob)
    requires custodyCols > 0
    requires runtimeCols == 0 || forall x :: x in Expansion(lookupSize, lookupIndex) ==> x.appId != appId
    ensures !Mappable(lookupSize, lookupIndex, appId, runtimeRows, runtimeCols, custodyCols, covered, tx)
  {
    hide Expansion;
  }

  /** The cells are those of the app's scalars in order, in different slots, and give back exactly the transaction. */
  ghost predicate Recovers(cells: seq<Cell>, range: AppRange, tx: Blob) {
    && |cells| == range.end - range.start == range.count
    && (forall i :: 0 <= i < |cells| ==> cells[i].scalar == range.start + i)
    && (forall i, j :: 0 <= i < j < |cells| ==>
          cells[i].custodyCol != cells[j].custodyCol || cells[i].virtualRow != cells[j].virtualRow)
    && Recover(cells).Some?
    && var decoded := DecodeBlobs(Recover(cells).value);
    && decoded.Parsed? && decoded.value == [tx]
    && decoded.rest == Zeros(SaturatingSub(|cells| * DATA_CHUNK_SIZE, |AppStream(tx)|))
  }

  /**
   The whole mapping. It succeeds exactly when its inputs allow it, and then reading the required
   cells back gives a stream whose SCALE decoding is the one transaction and padding.
   */
  method BuildMap(lookupSize: U32, lookupIndex: seq<LookupItem>, appId: U32, runtimeRows: U32, runtimeCols: U32,
                  custodyCols: U32, covered: set<nat>, tx: Blob)
    returns (r: Result<seq<Cell>>)
    requires SupportedCols(custodyCols)
    ensures r.Ok? <==> Mappable(lookupSize, lookupIndex, appId, runtimeRows, runtimeCols, custodyCols, covered, tx)
    ensures r.Ok? ==> Recovers(r.value, SelectRange(Expansion(lookupSize, lookupIndex), appId).value, tx)
  {
    hide DecodeBlobs, AppStream, Recover, ComputedGridRows, Bands, Recovers, SelectRange, Expansion, StoreCol;
    if runtimeRows == 0 || runtimeCols == 0 { return Err(ExpectedData); }
    var ranges := ExpandLookup(lookupSize, lookupIndex);
    var selected := SelectRange(ranges, appId);
    if selected.None? { return Err(ValidationFailed); }
    var range := selected.value;
    GridRowsAnswer(lookupSize, runtimeCols);
    var rows := ComputedGridRows(lookupSize, runtimeCols);
    if rows.Err? { return Err(ValidationFailed); }
    if rows.value > runtimeRows { return Err(ValidationFailed); }
    if rows.value * runtimeCols > U32_MAX { return Err(ValidationFailed); }
    if range.end > rows.value * runtimeCols { return Err(ValidationFailed); }
    var padded := PadAppStream(AppStream(tx), range.count);
    if padded.Err? { return Err(padded.error); }
    SelectedCounts(lookupSize, lookupIndex, appId);
    StreamNotEmpty(tx);
    r := BuildCells(padded.value, range, runtimeCols, custodyCols, covered);
    if r.Ok? { CellsRecover(r.value, range, rows.value, runtimeCols, custodyCols, tx); }
  }

  lemma GridRowsAnswer(totalScalars: U32, runtimeCols: U32)
    ensures ComputedGridRows(totalScalars, runtimeCols).Ok? <==> runtimeCols > 0
  {
  }

  lemma SelectedCounts(size: U32, index: seq<LookupItem>, appId: U32)
    requires SelectRange(Expansion(size, index), appId).Some?
    ensures var range := SelectRange(Expansion(size, index), appId).value;
      range.count == SaturatingSub(range.end, range.start)
  {
    RangeCounts(size, index, SelectRange(Expansion(size, index), appId).value);
  }

  lemma CellsRecover(cells: seq<Cell>, range: AppRange, rows: U32, runtimeCols: U32, custodyCols: U32, tx: Blob)
    requires SupportedCols(custodyCols) && runtimeCols > 0 && range.start <= range.end <= rows * runtimeCols <= U32_MAX
    requires |cells| == range.end - range.start == range.count
    requires PadAppStream(AppStream(tx), range.count).Ok?
    requires var padded := PadAppStream(AppStream(tx), range.count).value;
      forall i :: 0 <= i < |cells| ==> CellFor(cells[i], range.start + i, Chunk(padded, i), runtimeCols, custodyCols)
    ensures Recovers(cells, range, tx)
  {
    hide DecodeBlobs, AppStream, Recover, RecoverChunk, Bands, CustodyCol, VirtualRow;
    var padded := PadAppStream(AppStream(tx), range.count).value;
    CellsGiveStream(cells, padded, range.start, runtimeCols, custodyCols, |cells|);
    assert cells[..|cells|] == cells && padded[..|padded|] == padded;
    AppStreamDecodes(tx, Zeros(|padded| - |AppStream(tx)|));
    SlotsDiffer(cells, padded, range, rows, runtimeCols, custodyCols);
  }

  /** For a well-formed lookup the cells mapped are scalars of the app, by the lookup's own reading. */
  lemma {:induction false} MappedScalarsAreTheApps(size: U32, index: seq<LookupItem>, appId: U32, s: nat)
    requires WellFormed(size, index) && SelectRange(Expansion(size, index), appId).Some?
    requires var range := SelectRange(Expansion(size, index), appId).value; range.start <= s < range.end
    ensures LastAppAt(index, s) == appId && s < size
  {
    var ranges := Expansion(size, index);
    var range := SelectRange(ranges, appId).value;
    LookupTilesBlock(size, index);
    var i :| 0 <= i < |ranges| && ranges[i] == range;
  }
}
