/**
 The reading half of BNC's DecodeRTCM3MSM (c/BNC/RTCM3Decoder.cpp): masks and
 columns through the sliding-window bit reader, against RTKLIB's decoder.
 */
module MsmBnc {
  import opened Bits
  import opened BitFields
  import opened BitReader
  import opened Frames
  import opened Layout
  import opened MsmMasks
  import opened MsmIndex
  import opened MsmEncode
  import opened MsmDecode
  import opened MsmPlaces
  import opened MsmWalk

  /** The reader is between two reads, and has read pos bits of the message s. */
  ghost predicate At(r: BitReader, s: bits, pos: nat)
    reads r
  {
    r.Valid() && r.Message() == s && r.Position() == pos
  }

  lemma AtBound(r: BitReader, s: bits, pos: nat)
    requires At(r, s, pos)
    ensures pos <= |s|
  {
  }

  /** One column loop; signed columns are read with GETFLOATSIGN, before they are scaled. */
  method GetColumnOf(r: BitReader, width: nat, signed: bool, n: nat, ghost s: bits, ghost start: nat)
    returns (ok: bool, values: seq<int>)
    requires At(r, s, start) && 1 <= width <= 32
    modifies r
    ensures ok <==> start + Extent(n, width) <= |s|
    ensures ok ==> At(r, s, start + Extent(n, width)) && values == ReadColumn(s, start, width, signed, n)
  {
    hide At, Extent, FieldValue, ReadColumn;
    AtBound(r, s, start);
    ReadNone(s, start, width, signed);
    values := [];
    for j := 0 to n
      invariant start + Extent(j, width) <= |s| && At(r, s, start + Extent(j, width))
      invariant values == ReadColumn(s, start, width, signed, j)
    {
      ExtentGrows(j + 1, n, width);
      ok, values := PushField(r, width, signed, s, start, j, values);
      if !ok {
        return false, [];
      }
    }
    ok := true;
  }

  method PushField(r: BitReader, width: nat, signed: bool, ghost s: bits, ghost start: nat, ghost j: nat,
                   values: seq<int>)
    returns (ok: bool, more: seq<int>)
    requires 1 <= width <= 32 && start + Extent(j, width) <= |s| && At(r, s, start + Extent(j, width))
    requires values == ReadColumn(s, start, width, signed, j)
    modifies r
    ensures Extent(j + 1, width) == Extent(j, width) + width
    ensures ok <==> start + Extent(j + 1, width) <= |s|
    ensures ok ==> At(r, s, start + Extent(j + 1, width)) && more == ReadColumn(s, start, width, signed, j + 1)
  {
    hide At, Extent, FieldValue, ReadColumn;
    ReadPushIf(s, start, width, signed, j);
    var v;
    ok, v := GetField(r, width, signed, s, start + Extent(j, width));
    more := values + [v];
  }

  lemma ReadNone(s: bits, start: nat, width: nat, signed: bool)
    requires width >= 1 && start <= |s|
    ensures Extent(0, width) == 0 && ReadColumn(s, start, width, signed, 0) == []
  {
  }

  lemma ReadPushIf(s: bits, start: nat, width: nat, signed: bool, n: nat)
    requires width >= 1 && start + Extent(n, width) <= |s|
    ensures Extent(n + 1, width) == Extent(n, width) + width
    ensures var last := start + Extent(n, width);
            last + width <= |s| ==>
              ReadColumn(s, start, width, signed, n + 1) ==
              ReadColumn(s, start, width, signed, n) + [FieldValue(s[last..last + width], signed)]
  {
    hide FieldValue, Extent;
    ExtentStep(n, width);
    if start + Extent(n, width) + width <= |s| {
      ReadPush(s, start, width, signed, n);
    }
  }

  method GetField(r: BitReader, width: nat, signed: bool, ghost s: bits, ghost pos: nat) returns (ok: bool, v: int)
    requires At(r, s, pos) && 1 <= width <= 32
    modifies r
    ensures ok <==> pos + width <= |s|
    ensures ok ==> At(r, s, pos + width) && v == FieldValue(s[pos..pos + width], signed)
  {
    hide BitsOf, Value, Signed, Pow2, Window;
    if signed {
      ok, v := r.GetBitsSign(width);
    } else {
      ok, v := r.GetBits(width);
    }
  }

  /** The column that is passed over, one SKIPBITS(1) for each cell. */
  method SkipColumn(r: BitReader, n: nat) returns (ok: bool)
    requires r.Valid()
    modifies r
    ensures ok <==> old(r.Position()) + n <= |r.Message()|
    ensures ok ==> r.Valid() && r.Position() == old(r.Position()) + n
  {
    hide BitsOf, Value, Pow2;
    for j := 0 to n
      invariant r.Valid() && r.Position() == old(r.Position()) + j <= |r.Message()|
    {
      ok := r.SkipBits(1);
      if !ok {
        return false;
      }
    }
    ok := true;
  }

  // --------------------------------------------------------------- the type

  /** The constellation by its letter, from the seven ranges that are tested; the fourth of them is empty. */
  function SystemOf(t: nat): (sys: Option<char>)
    ensures sys.Some? <==> 1071 <= t <= 1137 && 1 <= t % 10 <= 7 && t / 10 != 110
    ensures sys.Some? ==> sys.value == "GRE?JCI"[t / 10 - 107]
  {
    if 1131 <= t <= 1137 then Some('I')
    else if 1121 <= t <= 1127 then Some('C')
    else if 1111 <= t <= 1117 then Some('J')
    else if 1101 <= t <= 1007 then Some('S')
    else if 1091 <= t <= 1097 then Some('E')
    else if 1081 <= t <= 1087 then Some('R')
    else if 1071 <= t <= 1077 then Some('G')
    else None
  }

  /** What the decoder goes by: the type, and the two masks if it is one whose columns are read. */
  datatype Start =
    | TooFewBits
    | UnknownType
    | NoColumns
    | Masks(messageType: nat, sats: bits, sigs: bits)

  function StartOf(m: bits): (st: Start)
    ensures st.Masks? ==> |m| >= 169 && 4 <= st.messageType % 10 <= 7
  {
    if |m| < 24 then TooFewBits
    else
      var t := Value(m[0..12]);
      if SystemOf(t).None? then UnknownType
      else if |m| < 55 then TooFewBits
      else if !(4 <= t % 10 <= 7) then NoColumns
      else if |m| < 169 then TooFewBits
      else Masks(t, m[73..137], m[137..169])
  }

  /** From the type to the masks, as the macros take the fields in turn. */
  method GetStart(r: BitReader) returns (st: Start)
    requires r.Valid() && r.Position() == 0
    modifies r
    ensures st == StartOf(r.Message())
    ensures st.Masks? ==> r.Valid() && r.Position() == 169
  {
    hide BitsOf, Value, Pow2;
    var ok, x, t;
    ok, t := r.GetBits(12); if !ok { return TooFewBits; }
    ok := r.SkipBits(12); if !ok { return TooFewBits; }
    var sys := SystemOf(t);
    if sys == None {
      return UnknownType;
    }
    ok := GetTime(r, sys == Some('R')); if !ok { return TooFewBits; }
    ok, x := r.GetBits(1); if !ok { return TooFewBits; }
    if !(t <= 1137 && t % 10 >= 4 && t % 10 <= 7) {
      return NoColumns;
    }
    var sats, sigs;
    ok, sats, sigs := GetMasks(r); if !ok { return TooFewBits; }
    st := Masks(t, sats, sigs);
  }

  method GetTime(r: BitReader, glonass: bool) returns (ok: bool)
    requires r.Valid()
    modifies r
    ensures ok <==> old(r.Position()) + 30 <= |r.Message()|
    ensures ok ==> r.Valid() && r.Position() == old(r.Position()) + 30
  {
    hide BitsOf, Value, Pow2;
    var x;
    if glonass {
      ok := r.SkipBits(3); if !ok { return; }
      ok, x := r.GetBits(27);
    } else {
      ok, x := r.GetBits(30);
    }
  }

  method GetMasks(r: BitReader) returns (ok: bool, sats: bits, sigs: bits)
    requires r.Valid() && r.Position() == 55
    modifies r
    ensures ok <==> 169 <= |r.Message()|
    ensures ok ==> r.Valid() && r.Position() == 169 && sats == r.Message()[73..137] && sigs == r.Message()[137..169]
  {
    hide BitsOf, Value, Pow2, ToBits;
    ghost var m := r.Message();
    sats, sigs := [], [];
    var x;
    ok := r.SkipBits(3 + 7 + 2 + 2 + 1 + 3); if !ok { return; }
    ok, x := r.GetBits64(64); if !ok { return; }
    ToBitsValue(m[73..137]);
    sats := ToBits(x, 64);
    ok, x := r.GetBits(32); if !ok { return; }
    ToBitsValue(m[137..169]);
    sigs := ToBits(x, 32);
  }

  // ------------------------------------------------------------ the columns

  /** The columns read so far, without the entries of the one passed over. */
  function Without(cols: seq<seq<int>>, half: nat): seq<seq<int>> {
    if half < |cols| then cols[half := []] else cols
  }

  method GetColumns(r: BitReader, fmt: seq<Format>, half: nat, nsat: nat, ncell: nat)
    returns (ok: bool, cols: seq<seq<int>>)
    requires r.Valid() && ValidFormats(fmt) && half < |fmt| && fmt[half] == UnsignedColumn(1, true)
    modifies r
    ensures ok <==> old(r.Position()) + BodyExtent(fmt, nsat, ncell, |fmt|) <= |r.Message()|
    ensures ok ==>
              && old(r.Position()) >= 0
              && cols == Without(ReadBody(fmt, r.Message(), old(r.Position()), nsat, ncell, |fmt|), half)
  {
    hide BitsOf, Value, Signed, Extent, Pow2, ReadColumn, BodyExtent, ReadBody;
    ghost var s, start: nat := r.Message(), r.Position();
    BodyGrows(fmt, nsat, ncell, |fmt|);
    NoBody(fmt, s, start, nsat, ncell);
    cols := [];
    for k := 0 to |fmt|
      invariant r.Valid() && r.Position() == start + BodyExtent(fmt, nsat, ncell, k) <= |s|
      invariant cols == Without(ReadBody(fmt, s, start, nsat, ncell, k), half)
    {
      var n := Entries(fmt[k], nsat, ncell);
      NextColumn(fmt, s, start, nsat, ncell, k, half);
      var column: seq<int> := [];
      if k == half {
        OneBitColumn(n);
        ok := SkipColumn(r, n);
      } else {
        ok, column := GetColumnOf(r, fmt[k].width, fmt[k].signed, n, s, r.Position());
      }
      if !ok {
        return false, [];
      }
      cols := cols + [column];
    }
    ok := true;
  }

  lemma OneBitColumn(n: nat)
    ensures Extent(n, 1) == n
  {
  }

  lemma NoBody(fmt: seq<Format>, s: bits, start: nat, nsat: nat, ncell: nat)
    requires ValidFormats(fmt) && start <= |s|
    ensures BodyExtent(fmt, nsat, ncell, 0) == 0 && ReadBody(fmt, s, start, nsat, ncell, 0) == []
  {
  }

  lemma NextColumn(fmt: seq<Format>, s: bits, start: nat, nsat: nat, ncell: nat, k: nat, half: nat)
    requires ValidFormats(fmt) && k < |fmt| && start + BodyExtent(fmt, nsat, ncell, k) <= |s|
    ensures var n, pos := Entries(fmt[k], nsat, ncell), start + BodyExtent(fmt, nsat, ncell, k);
            && BodyExtent(fmt, nsat, ncell, k + 1) == BodyExtent(fmt, nsat, ncell, k) + Extent(n, fmt[k].width)
            && (pos + Extent(n, fmt[k].width) <= |s| ==>
                  Without(ReadBody(fmt, s, start, nsat, ncell, k + 1), half) ==
                  Without(ReadBody(fmt, s, start, nsat, ncell, k), half)
                  + [if k == half then [] else ReadColumn(s, pos, fmt[k].width, fmt[k].signed, n)])
  {
    hide Extent, ReadColumn;
  }

  // ------------------------------------------------------------- agreement

  /**
   What the reading half ends with: out of bits, a type that is not decoded or
   of which only the time is looked at, a number of cells for which the source
   is not followed further, or what it read.
   */
  datatype Outcome =
    | Failed
    | Rejected
    | TimeOnly
    | OutOfRange
    | Read(messageType: nat, sats: bits, sigs: bits, cells: bits, cols: seq<seq<int>>)

  /** The message ends before its cell mask or its columns do. */
  predicate TooShort(m: bits, fmt: seq<Format>)
    requires |m| >= 169
  {
    var n := CellCount(m[73..137], m[137..169]);
    169 + n > |m| ||
    169 + n + BodyExtent(fmt, Ones(m[73..137]), Ones(m[169..169 + n]), |fmt|) > |m|
  }

  /** What is read of the embedded message m. */
  function OutcomeOf(m: bits): Outcome {
    match StartOf(m)
    case TooFewBits => Failed
    case UnknownType => Rejected
    case NoColumns => TimeOnly
    case Masks(t, sats, sigs) =>
      var n, fmt := CellCount(sats, sigs), FormatsOf(t % 10);
      if !(1 <= n <= 64) then OutOfRange
      else if TooShort(m, fmt) then Failed
      else
        var cells := m[169..169 + n];
        var cols := ReadBody(fmt, m, 169 + n, Ones(sats), Ones(cells), |fmt|);
        Read(t, sats, sigs, cells, Without(cols, HalfColumn(t % 10)))
  }

  /** Masks and columns are read where they stand, but for the column of half-cycle indicators. */
  ghost predicate ReadsInPlace(o: Outcome, m: bits, cells: nat)
    requires o.Read? && 169 + cells <= |m|
  {
    && o.sats == m[73..137] && o.sigs == m[137..169] && o.cells == m[169..169 + cells]
    && var kind := o.messageType % 10;
       ReadBut(if kind % 2 == 0 then 5 else 7, kind, m, 169 + cells, Ones(m[73..137]), Ones(o.cells), o.cols)
  }

  /** The columns but for one. */
  ghost predicate ReadBut(half: nat, kind: nat, m: bits, i: nat, nsat: nat, ncell: nat, read: seq<seq<int>>) {
    exists cols :: ColumnsAt(kind, m, i, nsat, ncell, cols) && read == Without(cols, half)
  }

  /** The outcome in the terms of the message's bits. */
  ghost predicate Tells(m: bits, o: Outcome) {
    if |m| < 24 then o == Failed
    else
      var t := Value(m[0..12]);
      if !(1071 <= t <= 1137 && 1 <= t % 10 <= 7 && t / 10 != 110) then o == Rejected
      else if |m| < 55 then o == Failed
      else if t % 10 < 4 then o == TimeOnly
      else if |m| < 169 then o == Failed
      else
        var nsat, cells := Ones(m[73..137]), CellCount(m[73..137], m[137..169]);
        if !(1 <= cells <= 64) then o == OutOfRange
        else if |m| < 169 + cells then o == Failed
        else if |m| < 169 + cells + ColumnsLength(t % 10, nsat, Ones(m[169..169 + cells])) then o == Failed
        else o.Read? && o.messageType == t && ReadsInPlace(o, m, cells)
  }

  lemma OutcomeTells(m: bits)
    ensures Tells(m, OutcomeOf(m))
  {
    hide Value, Ones, CellCount, ColumnsAt, ReadBody, BodyExtent, FormatsOf, ColumnsLength, Without;
    if StartOf(m).Masks? {
      var cells, kind := CellCount(m[73..137], m[137..169]), StartOf(m).messageType % 10;
      if 169 + cells <= |m| {
        ColumnsInPlace(kind, m, 169 + cells, Ones(m[73..137]), Ones(m[169..169 + cells]));
      }
    }
  }

  /** A whole frame, from behind its header to before its parity. */
  method DecodeRTCM3MSM(f: seq<byte>) returns (o: Outcome)
    requires |f| >= 6
    ensures o == OutcomeOf(BitsOf(f[3..|f| - 3])) && Tells(BitsOf(f[3..|f| - 3]), o)
  {
    OutcomeTells(BitsOf(f[3..|f| - 3]));
    hide BitsOf, Value, Pow2, ToBits, BodyExtent, ReadBody, Ones, Without, StartOf, FormatsOf, Tells, OutcomeOf;
    var r := new BitReader(f[3..|f| - 3]);
    ghost var m := r.Message();
    var start := GetStart(r);
    match start
    case TooFewBits => return Failed;
    case UnknownType => return Rejected;
    case NoColumns => return TimeOnly;
    case Masks(t, sats, sigs) =>
      o := ReadColumns(r, t, sats, sigs);
  }

  /** The rest of it, for MSM4 to MSM7. */
  method ReadColumns(r: BitReader, t: nat, sats: bits, sigs: bits) returns (o: Outcome)
    requires r.Valid() && r.Position() == 169 && StartOf(r.Message()) == Masks(t, sats, sigs)
    modifies r
    ensures o == OutcomeOf(r.Message())
  {
    hide BitsOf, Value, Pow2, ToBits, BodyExtent, ReadBody, Ones, Without, FormatsOf;
    ghost var m := r.Message();
    var numsat := CountBits(sats);
    var numsig := CountBits(sigs);
    var i := numsat * numsig;
    if i < 1 || 64 < i {
      return OutOfRange;
    }
    var ok, cellmask := r.GetBits64(i);
    if !ok {
      return Failed;
    }
    ToBitsValue(m[169..169 + i]);
    var cells := ToBits(cellmask, i);
    var ncell := CountBits(cells);
    var cols;
    ok, cols := GetColumns(r, FormatsOf(t % 10), HalfColumn(t % 10), numsat, ncell);
    if !ok {
      return Failed;
    }
    o := Read(t, sats, sigs, cells, cols);
  }

  lemma SliceOfSlice(s: bits, lo: nat, hi: nat, a: nat, b: nat)
    requires lo <= hi <= |s| && a <= b <= hi - lo
    ensures s[lo..hi][a..b] == s[lo + a..lo + b]
  {
    var t := s[lo..hi];
    assert forall k :: 0 <= k < b - a ==> t[a..b][k] == t[a + k] == s[lo + (a + k)];
  }

  lemma {:induction false} ColumnShifts(s: bits, lo: nat, hi: nat, pos: nat, width: nat, signed: bool, n: nat)
    requires width >= 1 && lo <= hi <= |s| && lo + pos + Extent(n, width) <= hi
    ensures ReadColumn(s[lo..hi], pos, width, signed, n) == ReadColumn(s, lo + pos, width, signed, n)
    decreases n
  {
    hide FieldValue, Extent;
    if n > 0 {
      ColumnStep(n, width);
      SliceOfSlice(s, lo, hi, pos, pos + width);
      ColumnShifts(s, lo, hi, pos + width, width, signed, n - 1);
    }
  }

  lemma {:induction false} BodyShifts(fmt: seq<Format>, s: bits, lo: nat, hi: nat, pos: nat, nsat: nat, ncell: nat,
                                      n: nat)
    requires ValidFormats(fmt) && n <= |fmt| && lo <= hi <= |s| && lo + pos + BodyExtent(fmt, nsat, ncell, n) <= hi
    ensures ReadBody(fmt, s[lo..hi], pos, nsat, ncell, n) == ReadBody(fmt, s, lo + pos, nsat, ncell, n)
  {
    hide ReadColumn, Extent;
    if n > 0 {
      BodyShifts(fmt, s, lo, hi, pos, nsat, ncell, n - 1);
      ColumnShifts(s, lo, hi, pos + BodyExtent(fmt, nsat, ncell, n - 1), fmt[n - 1].width, fmt[n - 1].signed,
                   Entries(fmt[n - 1], nsat, ncell));
    }
  }

  /**
   BNC and RTKLIB on the same frame, of MSM n of one of RTKLIB's
   constellations: BNC reads it exactly when RTKLIB's decoder does and finds
   a cell in it, but for SBAS, which BNC never reads.  What both read is the
   same, but for the column that BNC passes over.
   */
  lemma ReadersAgree(f: seq<byte>, sys: System, n: nat)
    requires 4 <= n <= 7 && |f| >= 6 && MessageType(f) == MessageNumber(sys, n)
    ensures var o := OutcomeOf(BitsOf(f[3..|f| - 3]));
            var p := ParseMsm(FormatsOf(n), BitsOf(f), 8 * (|f| - 3), sys, ANY_STATION);
            && (o.Read? <==> sys != SBS && p.Some? && |p.value.head.cellmask| >= 1)
            && (o.Read? ==>
                  && o.messageType == MessageType(f) && |BitsOf(f)| >= 193
                  && o.sats == BitsOf(f)[97..161] && o.sigs == BitsOf(f)[161..193]
                  && Ids(o.sats) == p.value.head.sats && Ids(o.sigs) == p.value.head.sigs
                  && o.cells == p.value.head.cellmask && o.cols == Without(p.value.cols, HalfColumn(n)))
  {
    hide BitsOf, Value, BodyExtent, ReadBody, Ones, Ids, CellCount, ReadHeader, Without, FormatsOf, MessageType,
         StartOf, MessageNumber, SystemOf, HalfColumn;
    var s, hi, fmt := BitsOf(f), 8 * (|f| - 3), FormatsOf(n);
    BitsOfSlice(f, 3, |f| - 3);
    var m := s[24..hi];
    StartAt(f, sys, n);
    if |m| >= 169 {
      var cells := CellsAt(s);
      SameMasks(s, hi, cells);
      if cells <= 64 && 169 + cells <= |m| {
        HeadLists(s, sys, m[169..169 + cells]);
        var nsat, ncell := Ones(m[73..137]), Ones(m[169..169 + cells]);
        if 169 + cells + BodyExtent(fmt, nsat, ncell, |fmt|) <= |m| {
          BodyShifts(fmt, s, 24, hi, 169 + cells, nsat, ncell, |fmt|);
        }
      }
    }
  }

  lemma StartAt(f: seq<byte>, sys: System, n: nat)
    requires 4 <= n <= 7 && |f| >= 6 && MessageType(f) == MessageNumber(sys, n)
    ensures MessageType(f) % 10 == n
    ensures var m := BitsOf(f[3..|f| - 3]);
            StartOf(m) ==
              if |m| < 24 then TooFewBits
              else if sys == SBS then UnknownType
              else if |m| < 169 then TooFewBits
              else Masks(MessageType(f), m[73..137], m[137..169])
  {
    hide BitsOf, Value, MessageType;
    BitsOfSlice(f, 3, |f| - 3);
    TypeAsBits(f);
    if |f| >= 9 {
      SliceOfSlice(BitsOf(f), 24, 8 * (|f| - 3), 0, 12);
    }
  }

  lemma SameMasks(s: bits, hi: nat, n: nat)
    requires 193 <= hi <= |s|
    ensures var m := s[24..hi];
            && m[73..137] == s[97..161] && m[137..169] == s[161..193]
            && (193 + n <= hi ==> m[169..169 + n] == s[193..193 + n])
  {
    SliceOfSlice(s, 24, hi, 73, 137);
    SliceOfSlice(s, 24, hi, 137, 169);
    if 193 + n <= hi {
      SliceOfSlice(s, 24, hi, 169, 169 + n);
    }
  }

  lemma HeadLists(s: bits, sys: System, cells: bits)
    requires |s| >= 193
    ensures var h := ReadHeader(s, sys, cells);
            && h.sats == Ids(s[97..161]) && |h.sats| == Ones(s[97..161])
            && h.sigs == Ids(s[161..193]) && h.cellmask == cells
  {
  }
}
