/**
 The Go header package (rtcm/header/header.go) and the satellite cells of an
 MSM4 (rtcm/type_msm4/satellite/satellite.go), against RTKLIB's decoder.
 */
module MsmGo {
  import opened Bits
  import opened BitFields
  import opened Frames
  import opened GoFramer
  import opened Layout
  import opened MsmMasks
  import opened MsmIndex
  import opened MsmEncode
  import opened MsmDecode
  import opened GoStream
  import opened MsmWalk

  /** (mask >> bitPosition) & 1 */
  function BitAt(mask: nat, bitPosition: nat): bool {
    mask / Pow2(bitPosition) % 2 == 1
  }

  lemma BitOfValue(m: bits, k: nat)
    requires k < |m|
    ensures BitAt(Value(m), |m| - 1 - k) == m[k]
  {
    ToBitsValue(m);
    NumeralBit(Value(m), |m|, k);
  }

  /** getSatellites (n is 64) and getSignals (n is 32). */
  method GetIds(mask: nat, n: nat, ghost m: bits) returns (ids: seq<nat>)
    requires |m| == n && mask == Value(m)
    ensures ids == Ids(m)
  {
    hide Value;
    ids := [];
    for num := 1 to n + 1
      invariant ids == IdsUpTo(m, num - 1)
    {
      BitOfValue(m, num - 1);
      if BitAt(mask, n - num) {
        ids := ids + [num];
      }
    }
  }

  /** The cell table: one row for each satellite. */
  predicate IsTable(t: seq<seq<bool>>, cells: bits, rows: nat, columns: nat) {
    && |t| == rows
    && forall r :: 0 <= r < rows ==> IsRow(t[r], cells, r, columns)
  }

  predicate IsRow(row: seq<bool>, cells: bits, r: nat, columns: nat) {
    0 <= r * columns && (r + 1) * columns <= |cells| && r * columns + columns == (r + 1) * columns
    && row == cells[r * columns..(r + 1) * columns]
  }

  lemma RowFits(r: nat, rows: nat, columns: nat)
    requires r < rows
    ensures 0 <= r * columns && r * columns + columns == (r + 1) * columns <= rows * columns
  {
  }

  /** getCells */
  method GetCellTable(cellMask: nat, rows: nat, columns: nat, ghost m: bits) returns (cells: seq<seq<bool>>)
    requires cellMask == Value(m) && |m| == rows * columns
    ensures IsTable(cells, m, rows, columns)
  {
    hide Value;
    var shift := rows * columns - 1;
    cells := [];
    for i := 0 to rows
      invariant shift == rows * columns - 1 - i * columns
      invariant IsTable(cells, m, i, columns)
    {
      RowFits(i, rows, columns);
      var row;
      row, shift := GetCellRow(cellMask, columns, shift, m);
      cells := cells + [row];
    }
  }

  /** The inner loop of getCells. */
  method GetCellRow(cellMask: nat, columns: nat, start: int, ghost m: bits) returns (row: seq<bool>, shift: int)
    requires cellMask == Value(m) && columns <= start + 1 <= |m|
    ensures shift == start - columns && row == m[|m| - 1 - start..|m| - 1 - start + columns]
  {
    hide Value;
    ghost var base := |m| - 1 - start;
    row, shift := [], start;
    for j := 0 to columns
      invariant shift == start - j && row == m[base..base + j]
    {
      BitOfValue(m, base + j);
      row := row + [BitAt(cellMask, shift)];
      shift := shift - 1;
    }
  }

  /**
   The table and the walk over the cells agree: an entry is true exactly when
   the walk makes a reading of the cell, and that reading has the satellite of
   the row and the signal of the column.
   */
  lemma TableMatchesWalk(t: seq<seq<bool>>, b: Block, r: nat, k: nat)
    requires WellSized(b) && IsTable(t, b.cells, Ones(b.sats), Ones(b.sigs)) && r < Ones(b.sats) && k < Ones(b.sigs)
    ensures |t[r]| == Ones(b.sigs) && 0 <= r * Ones(b.sigs) + k < |b.cells|
    ensures var cell := r * Ones(b.sigs) + k;
            && t[r][k] == b.cells[cell]
            && (t[r][k] ==>
                  var n := Count(b.cells, cell);
                  && n < |Readings(b)|
                  && Readings(b)[n].sat == Ids(b.sats)[r] && Readings(b)[n].sig == Ids(b.sigs)[k])
  {
    hide Ones, Ids, Count, ReadingsTo;
    RowMajorBound(r, k, Ones(b.sats), Ones(b.sigs));
    EntryOfRow(t[r], b.cells, r, Ones(b.sigs), k);
    if t[r][k] {
      ReadingStays(b, r, k, Ones(b.sats), 0);
    }
  }

  lemma EntryOfRow(row: seq<bool>, cells: bits, r: nat, columns: nat, k: nat)
    requires IsRow(row, cells, r, columns) && k < columns
    ensures |row| == columns && 0 <= r * columns + k < |cells| && row[k] == cells[r * columns + k]
  {
  }

  datatype Header = Header(
    messageType: nat, stationID: nat, timestamp: nat, multipleMessage: bool, issueOfDataStation: nat,
    sessionTransmissionTime: nat, clockSteering: nat, externalClock: nat, smoothing: bool, smoothingInterval: nat,
    satellites: seq<nat>, signals: seq<nat>, cells: seq<seq<bool>>)

  /** The header holds what RTKLIB's decoder finds in the same frame. */
  ghost predicate SameHeader(g: Header, s: bits, h: MsmHeader)
    requires |s| >= 193
  {
    && g.messageType == Value(s[24..36]) && g.stationID == h.staid && h.epoch == Tow(g.timestamp)
    && g.multipleMessage == (h.sync == 1) && g.issueOfDataStation == h.iod
    && g.sessionTransmissionTime == h.timeS && g.clockSteering == h.clkStr && g.externalClock == h.clkExt
    && g.smoothing == (h.smooth == 1) && g.smoothingInterval == h.tintS
    && g.satellites == h.sats && g.signals == h.sigs
    && IsTable(g.cells, h.cellmask, |h.sats|, |h.sigs|)
  }

  /** The header in the terms of the frame's bits. */
  ghost predicate Tells(g: Header, s: bits)
    requires |s| >= 193
  {
    && g.messageType == Value(s[24..36]) && g.stationID == Value(s[36..48]) && g.timestamp == Value(s[48..78])
    && g.multipleMessage == s[78] && g.issueOfDataStation == Value(s[79..82])
    && g.sessionTransmissionTime == Value(s[82..89]) && g.clockSteering == Value(s[89..91])
    && g.externalClock == Value(s[91..93]) && g.smoothing == s[93] && g.smoothingInterval == Value(s[94..97])
    && g.satellites == Ids(s[97..161]) && g.signals == Ids(s[161..193])
    && 193 + CellsAt(s) <= |s| && IsTable(g.cells, s[193..193 + CellsAt(s)], |g.satellites|, |g.signals|)
  }

  /**
   GetMSMHeader accepts a frame exactly when its type is that of an MSM4 or
   MSM7 and RTKLIB's decode_msm_head accepts it, and they find the same.
   */
  method GetMSMHeader(bitStream: seq<byte>) returns (header: Option<Header>, next: nat)
    ensures header.Some? <==>
            && |bitStream| >= 6 && IsMsm(MessageType(bitStream))
            && ParseHead(BitsOf(bitStream), 8 * (|bitStream| - 3), GPS, ANY_STATION).Some?
    ensures header.Some? ==>
            var h := ParseHead(BitsOf(bitStream), 8 * (|bitStream| - 3), GPS, ANY_STATION).value;
            next == 193 + |h.cellmask| && SameHeader(header.value, BitsOf(bitStream), h)
    ensures header.Some? ==> |bitStream| >= 28 && Tells(header.value, BitsOf(bitStream))
  {
    hide BitsOf, Value, Ids, Ones, MessageType;
    var lenMessageInBits := (|bitStream| - 6) * 8;
    if lenMessageInBits < 169 {
      return None, 0;
    }
    TypeAsBits(bitStream);
    var pos := 24;
    var messageType := GetBitsAsUint64(bitStream, pos, 12); pos := pos + 12;
    if !IsMsm(messageType) {
      return None, 0;
    }
    var stationID := GetBitsAsUint64(bitStream, pos, 12); pos := pos + 12;
    var timestamp := GetBitsAsUint64(bitStream, pos, 30); pos := pos + 30;
    var mm := GetBitsAsUint64(bitStream, pos, 1); pos := pos + 1;
    var iods := GetBitsAsUint64(bitStream, pos, 3); pos := pos + 3;
    var stt := GetBitsAsUint64(bitStream, pos, 7); pos := pos + 7;
    var csi := GetBitsAsUint64(bitStream, pos, 2); pos := pos + 2;
    var eci := GetBitsAsUint64(bitStream, pos, 2); pos := pos + 2;
    var gi := GetBitsAsUint64(bitStream, pos, 1); pos := pos + 1;
    var interval := GetBitsAsUint64(bitStream, pos, 3); pos := pos + 3;
    var satelliteMask := GetBitsAsUint64(bitStream, pos, 64); pos := pos + 64;
    ghost var s := BitsOf(bitStream);
    var satellites := GetIds(satelliteMask, 64, s[97..161]);
    var signalMask := GetBitsAsUint64(bitStream, pos, 32); pos := pos + 32;
    var signals := GetIds(signalMask, 32, s[161..193]);
    var lenCellMaskBits := |satellites| * |signals|;
    if lenCellMaskBits > 64 {
      return None, 0;
    }
    var lengthRequired := 24 + 24 + 169 + lenCellMaskBits;
    if |bitStream| * 8 < lengthRequired {
      return None, 0;
    }
    var cellMask := GetBitsAsUint64(bitStream, pos, lenCellMaskBits);
    var cells := GetCellTable(cellMask, |satellites|, |signals|, s[193..193 + lenCellMaskBits]);
    next := pos + lenCellMaskBits;
    OneBit(s, 78);
    OneBit(s, 93);
    header := Some(Header(messageType, stationID, timestamp, mm == 1, iods, stt, csi, eci, gi == 1, interval,
                          satellites, signals, cells));
  }

  /**
   The timestamp that the handler gives a message is the one that the header
   decoders find in it.
   */
  lemma HandlerTimestamp(s: seq<byte>, k: nat)
    requires k < |RunOf(s).messages| && MsmNumber(RunOf(s).messages[k].messageType)
    ensures var m := RunOf(s).messages[k];
            && |m.rawData| >= 10
            && var h := ParseHead(BitsOf(m.rawData), 8 * (|m.rawData| - 3), GPS, ANY_STATION);
               h.Some? ==> h.value.epoch == Tow(m.timestamp)
  {
    hide RunOf, Value, BitsOf, ChecksPass, Ids, CellCount;
    MessagesAreClassified(s, k);
  }

  // ------------------------------------------------------ satellite cells

  datatype SatelliteCell = SatelliteCell(id: nat, wholeMillis: int, fractionalMillis: int)

  /** Two columns and the list of ids, turned into a list of cells. */
  function CellsOfColumns(ids: seq<nat>, whole: seq<int>, fraction: seq<int>): (cells: seq<SatelliteCell>)
    requires |ids| == |whole| == |fraction|
    ensures |cells| == |ids|
  {
    seq(|ids|, i requires 0 <= i < |ids| => SatelliteCell(ids[i], whole[i], fraction[i]))
  }

  method GetUnsignedColumn(bitStream: seq<byte>, start: nat, width: nat, n: nat) returns (values: seq<int>, pos: nat)
    requires 1 <= width <= 64 && start + Extent(n, width) <= 8 * |bitStream|
    ensures values == ReadColumn(BitsOf(bitStream), start, width, false, n) && pos == start + Extent(n, width)
  {
    hide BitsOf, Value, Extent;
    ExtentStep(0, width);
    values, pos := [], start;
    for j := 0 to n
      invariant pos == start + Extent(j, width) <= 8 * |bitStream|
      invariant values == ReadColumn(BitsOf(bitStream), start, width, false, j)
    {
      ExtentGrows(j + 1, n, width);
      ReadPush(BitsOf(bitStream), start, width, false, j);
      var v := GetBitsAsUint64(bitStream, pos, width);
      values := values + [v];
      pos := pos + width;
    }
  }

  /** Each satellite has its whole milliseconds in 8 bits, and behind those of all satellites the rest in 10. */
  predicate CellsInPlace(s: bits, start: nat, satellites: seq<nat>, cells: seq<SatelliteCell>)
    requires start + 18 * |satellites| <= |s|
  {
    var n := |satellites|;
    && |cells| == n
    && forall k :: 0 <= k < n ==>
         && cells[k].id == satellites[k]
         && cells[k].wholeMillis == Value(s[start + 8 * k..start + 8 * k + 8])
         && cells[k].fractionalMillis == Value(s[start + 8 * n + 10 * k..start + 8 * n + 10 * k + 10])
  }

  lemma ColumnsGiveCells(s: bits, start: nat, satellites: seq<nat>)
    requires start + 18 * |satellites| <= |s|
    ensures var n := |satellites|;
            && Extent(n, 8) == 8 * n && Extent(n, 10) == 10 * n
            && var whole, rest := ReadColumn(s, start, 8, false, n), ReadColumn(s, start + 8 * n, 10, false, n);
               CellsInPlace(s, start, satellites, CellsOfColumns(satellites, whole, rest))
  {
    hide Value, ReadColumn;
    ColumnPlaces(s, start, 8, false, |satellites|);
    ColumnPlaces(s, start + 8 * |satellites|, 10, false, |satellites|);
  }

  /**
   GetSatelliteCells of an MSM4, from where its header ended: it fails exactly
   when the satellite columns do not fit before the parity, and otherwise
   pairs each satellite with its entries in RTKLIB's first two columns.
   */
  method GetSatelliteCells(bitStream: seq<byte>, startOfSatelliteData: nat, satellites: seq<nat>, ghost ncell: nat)
    returns (cells: Option<seq<SatelliteCell>>)
    ensures cells.Some? <==> startOfSatelliteData + 18 * |satellites| + 24 <= 8 * |bitStream|
    ensures cells.Some? ==>
            && ValidFormats(MSM4)
            && startOfSatelliteData + BodyExtent(MSM4, |satellites|, ncell, 2) <= |BitsOf(bitStream)|
            && var cols := ReadBody(MSM4, BitsOf(bitStream), startOfSatelliteData, |satellites|, ncell, 2);
               |cols[0]| == |cols[1]| == |satellites| && cells.value == CellsOfColumns(satellites, cols[0], cols[1])
    ensures cells.Some? ==>
              && startOfSatelliteData + 18 * |satellites| <= |BitsOf(bitStream)|
              && CellsInPlace(BitsOf(bitStream), startOfSatelliteData, satellites, cells.value)
  {
    hide BitsOf, Value, CellsInPlace, ReadColumn;
    var n := |satellites|;
    var bitsLeftInMessage := |bitStream| * 8 - startOfSatelliteData - 24;
    if bitsLeftInMessage < n * (8 + 10) {
      return None;
    }
    var pos := startOfSatelliteData;
    var wholeMillis, fractionalMillis;
    wholeMillis, pos := GetUnsignedColumn(bitStream, pos, 8, n);
    fractionalMillis, pos := GetUnsignedColumn(bitStream, pos, 10, n);
    var satData := [];
    for i := 0 to n
      invariant satData == CellsOfColumns(satellites, wholeMillis, fractionalMillis)[..i]
    {
      satData := satData + [SatelliteCell(satellites[i], wholeMillis[i], fractionalMillis[i])];
    }
    cells := Some(satData);
    ColumnsGiveCells(BitsOf(bitStream), startOfSatelliteData, satellites);
    FirstTwoColumns(BitsOf(bitStream), startOfSatelliteData, n, ncell);
  }

  lemma FirstTwoColumns(s: bits, pos: nat, nsat: nat, ncell: nat)
    requires pos + 18 * nsat <= |s|
    ensures ValidFormats(MSM4) && pos + BodyExtent(MSM4, nsat, ncell, 2) <= |s|
    ensures pos + Extent(nsat, 8) + Extent(nsat, 10) <= |s|
    ensures ReadBody(MSM4, s, pos, nsat, ncell, 2) ==
            [ReadColumn(s, pos, 8, false, nsat), ReadColumn(s, pos + Extent(nsat, 8), 10, false, nsat)]
  {
    assert BodyExtent(MSM4, nsat, ncell, 1) == Extent(nsat, 8);
    assert BodyExtent(MSM4, nsat, ncell, 2) == Extent(nsat, 8) + Extent(nsat, 10);
    assert ReadBody(MSM4, s, pos, nsat, ncell, 1) == [ReadColumn(s, pos, 8, false, nsat)];
  }
}
