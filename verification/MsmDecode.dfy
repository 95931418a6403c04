/**
 RTKLIB's MSM decoder (c/rtklib/rtcm3.c): decode_msm_head and the columns of
 decode_msm4 and decode_msm7, as far as the integers in the fields.  It undoes
 the encoder exactly when the cell mask has room for all the cells.
 */
module MsmDecode {
  import opened Bits
  import opened BitFields
  import opened Frames
  import opened Layout
  import opened MsmMasks
  import opened MsmIndex
  import opened MsmEncode
  import opened MsmPlaces

  /** The time field: milliseconds of the week, or GLONASS's day of the week and milliseconds of the day. */
  datatype Epoch = Tow(ms: nat) | Glonass(dow: nat, tod: nat)

  datatype MsmHeader = MsmHeader(
    staid: nat, epoch: Epoch, sync: nat, iod: nat,
    timeS: nat, clkStr: nat, clkExt: nat, smooth: nat, tintS: nat,
    sats: seq<nat>, sigs: seq<nat>, cellmask: bits)

  /** What test_staid goes by: the station being followed (0: none yet), and the -STA option. */
  datatype Following = Following(staid: nat, obsflag: bool, option: Option<nat>)

  predicate StaidOk(f: Following, staid: nat) {
    (f.option == None || f.option == Some(staid)) && (f.staid == 0 || f.obsflag || f.staid == staid)
  }

  /** A decoder that takes any station. */
  const ANY_STATION: Following := Following(0, false, None)

  function ReadEpoch(s: bits, sys: System): Epoch
    requires |s| >= 193
  {
    if sys == GLO then Glonass(Value(s[48..51]), Value(s[51..78])) else Tow(Value(s[48..78]))
  }

  /** The fixed part of a header. */
  function ReadFixed(s: bits, sys: System): MsmHeader
    requires |s| >= 193
  {
    MsmHeader(Value(s[36..48]), ReadEpoch(s, sys), Value(s[78..79]), Value(s[79..82]),
              Value(s[82..89]), Value(s[89..91]), Value(s[91..93]), Value(s[93..94]), Value(s[94..97]), [], [], [])
  }

  /** A header with the cell mask given. */
  function ReadHeader(s: bits, sys: System, cells: bits): MsmHeader
    requires |s| >= 193
  {
    ReadFixed(s, sys).(sats := Ids(s[97..161]), sigs := Ids(s[161..193]), cellmask := cells)
  }

  function CellsAt(s: bits): nat
    requires |s| >= 193
  {
    CellCount(s[97..161], s[161..193])
  }

  /** What decode_msm_head makes of the message in the first nbits of s; None where it returns -1. */
  function ParseHead(s: bits, nbits: nat, sys: System, f: Following): Option<MsmHeader>
    requires nbits <= |s|
  {
    if 36 + 157 > nbits then None
    else if !StaidOk(f, Value(s[36..48])) then None
    else if CellsAt(s) > 64 then None
    else if 193 + CellsAt(s) > nbits then None
    else Some(ReadHeader(s, sys, s[193..193 + CellsAt(s)]))
  }

  /** What decode_msm_head finds, in the terms of the message's bits, and when. */
  ghost predicate HeadTells(s: bits, nbits: nat, sys: System, f: Following, h: Option<MsmHeader>)
    requires nbits <= |s|
  {
    && (h.Some? <==>
          && nbits >= 193 && StaidOk(f, Value(s[36..48]))
          && var cells := |Ids(s[97..161])| * |Ids(s[161..193])|; cells <= 64 && 193 + cells <= nbits)
    && (h.Some? ==>
          var m := h.value;
          && m.staid == Value(s[36..48])
          && m.epoch == (if sys == GLO then Glonass(Value(s[48..51]), Value(s[51..78])) else Tow(Value(s[48..78])))
          && m.sync == Value(s[78..79]) && m.iod == Value(s[79..82]) && m.timeS == Value(s[82..89])
          && m.clkStr == Value(s[89..91]) && m.clkExt == Value(s[91..93]) && m.smooth == Value(s[93..94])
          && m.tintS == Value(s[94..97])
          && m.sats == Ids(s[97..161]) && m.sigs == Ids(s[161..193])
          && |m.cellmask| == |m.sats| * |m.sigs| && m.cellmask == s[193..193 + |m.cellmask|])
  }

  lemma ParsedHeadTells(s: bits, nbits: nat, sys: System, f: Following)
    requires nbits <= |s|
    ensures HeadTells(s, nbits, sys, f, ParseHead(s, nbits, sys, f))
  {
    hide Value, StaidOk, Ids;
    if nbits >= 193 {
      ListLengths(s);
    }
  }

  lemma ListLengths(s: bits)
    requires |s| >= 193
    ensures CellsAt(s) == |Ids(s[97..161])| * |Ids(s[161..193])|
  {
  }

  /**
   A decoder that follows a station, or was told one by its option, takes
   messages of that station only; one that does neither takes any.
   */
  lemma FollowsItsStation(s: bits, nbits: nat, sys: System, f: Following)
    requires nbits <= |s|
    ensures var h, any := ParseHead(s, nbits, sys, f), ParseHead(s, nbits, sys, ANY_STATION);
            && (h.Some? <==>
                  && any.Some?
                  && (f.option.Some? ==> any.value.staid == f.option.value)
                  && (f.staid != 0 && !f.obsflag ==> any.value.staid == f.staid))
            && (h.Some? ==> h == any)
  {
    hide Value, Ids;
  }

  function ReadBody(fmt: seq<Format>, s: bits, pos: nat, nsat: nat, ncell: nat, n: nat): (cols: seq<seq<int>>)
    requires ValidFormats(fmt) && n <= |fmt| && pos + BodyExtent(fmt, nsat, ncell, n) <= |s|
    ensures |cols| == n
  {
    if n == 0 then []
    else
      ReadBody(fmt, s, pos, nsat, ncell, n - 1)
      + [ReadColumn(s, pos + BodyExtent(fmt, nsat, ncell, n - 1), fmt[n - 1].width, fmt[n - 1].signed,
                    Entries(fmt[n - 1], nsat, ncell))]
  }

  datatype MsmMessage = MsmMessage(head: MsmHeader, cols: seq<seq<int>>)

  function ParseMsm(fmt: seq<Format>, s: bits, nbits: nat, sys: System, f: Following): Option<MsmMessage>
    requires ValidFormats(fmt) && nbits <= |s|
  {
    match ParseHead(s, nbits, sys, f)
    case None => None
    case Some(h) =>
      var i, nsat, ncell := 193 + |h.cellmask|, |h.sats|, Ones(h.cellmask);
      if i + BodyExtent(fmt, nsat, ncell, |fmt|) > nbits then None
      else Some(MsmMessage(h, ReadBody(fmt, s, i, nsat, ncell, |fmt|)))
  }

  // ---------------------------------------------------- places of what is read

  predicate ColumnRead(s: bits, at: nat, f: Format, col: seq<int>) {
    if f.signed then SignedNumbersAt(s, at, f.width, col) else NumbersAt(s, at, f.width, col)
  }

  lemma {:induction false} ReadPlaces(fmt: seq<Format>, s: bits, i: nat, nsat: nat, ncell: nat, n: nat, k: nat)
    requires ValidFormats(fmt) && k < n <= |fmt| && i + BodyExtent(fmt, nsat, ncell, n) <= |s|
    ensures var col := ReadBody(fmt, s, i, nsat, ncell, n)[k];
            |col| == Entries(fmt[k], nsat, ncell) && ColumnRead(s, i + BodyExtent(fmt, nsat, ncell, k), fmt[k], col)
  {
    hide Extent, ReadColumn, ColumnRead;
    if k < n - 1 {
      ReadPlaces(fmt, s, i, nsat, ncell, n - 1, k);
    } else {
      PlacesRead(s, i + BodyExtent(fmt, nsat, ncell, k), fmt[k], Entries(fmt[k], nsat, ncell));
    }
  }

  lemma PlacesRead(s: bits, at: nat, f: Format, n: nat)
    requires f.width >= 1 && at + Extent(n, f.width) <= |s|
    ensures ColumnRead(s, at, f, ReadColumn(s, at, f.width, f.signed, n))
  {
    ColumnPlaces(s, at, f.width, f.signed, n);
  }

  lemma AllPlaces(fmt: seq<Format>, s: bits, i: nat, nsat: nat, ncell: nat)
    requires ValidFormats(fmt) && i + BodyExtent(fmt, nsat, ncell, |fmt|) <= |s|
    ensures forall k :: 0 <= k < |fmt| ==>
              var col := ReadBody(fmt, s, i, nsat, ncell, |fmt|)[k];
              |col| == Entries(fmt[k], nsat, ncell) && ColumnRead(s, i + BodyExtent(fmt, nsat, ncell, k), fmt[k], col)
  {
    hide ReadBody, BodyExtent, ColumnRead;
    forall k | 0 <= k < |fmt|
      ensures var col := ReadBody(fmt, s, i, nsat, ncell, |fmt|)[k];
              |col| == Entries(fmt[k], nsat, ncell) && ColumnRead(s, i + BodyExtent(fmt, nsat, ncell, k), fmt[k], col)
    {
      ReadPlaces(fmt, s, i, nsat, ncell, |fmt|, k);
    }
  }

  /** An MSM takes as many bits, and is read at the places, as written out in MsmPlaces. */
  predicate InPlace(kind: nat, s: bits, i: nat, nsat: nat, ncell: nat)
    requires 4 <= kind <= 7
  {
    var fmt := FormatsOf(kind);
    && BodyExtent(fmt, nsat, ncell, |fmt|) == ColumnsLength(kind, nsat, ncell)
    && (i + ColumnsLength(kind, nsat, ncell) <= |s| ==>
          ColumnsAt(kind, s, i, nsat, ncell, ReadBody(fmt, s, i, nsat, ncell, |fmt|)))
  }

  lemma Msm4InPlace(s: bits, i: nat, nsat: nat, ncell: nat)
    ensures InPlace(4, s, i, nsat, ncell)
  {
    hide ReadBody, BodyExtent, NumbersAt, SignedNumbersAt;
    var fmt := FormatsOf(4);
    RangeExtents(fmt, nsat, ncell);
    SignalExtents(fmt, nsat, ncell, 2);
    if i + BodyExtent(fmt, nsat, ncell, 7) <= |s| {
      AllPlaces(fmt, s, i, nsat, ncell);
    }
  }

  lemma Msm5InPlace(s: bits, i: nat, nsat: nat, ncell: nat)
    ensures InPlace(5, s, i, nsat, ncell)
  {
    hide ReadBody, BodyExtent, NumbersAt, SignedNumbersAt;
    var fmt := FormatsOf(5);
    ExtendedRangeExtents(fmt, nsat, ncell);
    SignalExtents(fmt, nsat, ncell, 4);
    NextExtent(fmt, nsat, ncell, 9);
    if i + BodyExtent(fmt, nsat, ncell, 10) <= |s| {
      AllPlaces(fmt, s, i, nsat, ncell);
    }
  }

  lemma Msm6InPlace(s: bits, i: nat, nsat: nat, ncell: nat)
    ensures InPlace(6, s, i, nsat, ncell)
  {
    hide ReadBody, BodyExtent, NumbersAt, SignedNumbersAt;
    var fmt := FormatsOf(6);
    RangeExtents(fmt, nsat, ncell);
    FineSignalExtents(fmt, nsat, ncell, 2);
    if i + BodyExtent(fmt, nsat, ncell, 7) <= |s| {
      AllPlaces(fmt, s, i, nsat, ncell);
    }
  }

  lemma Msm7InPlace(s: bits, i: nat, nsat: nat, ncell: nat)
    ensures InPlace(7, s, i, nsat, ncell)
  {
    hide ReadBody, BodyExtent, NumbersAt, SignedNumbersAt;
    var fmt := FormatsOf(7);
    ExtendedRangeExtents(fmt, nsat, ncell);
    FineSignalExtents(fmt, nsat, ncell, 4);
    NextExtent(fmt, nsat, ncell, 9);
    if i + BodyExtent(fmt, nsat, ncell, 10) <= |s| {
      AllPlaces(fmt, s, i, nsat, ncell);
    }
  }

  lemma ColumnsInPlace(kind: nat, s: bits, i: nat, nsat: nat, ncell: nat)
    requires 4 <= kind <= 7
    ensures InPlace(kind, s, i, nsat, ncell)
  {
    hide InPlace;
    match kind
    case 4 => Msm4InPlace(s, i, nsat, ncell);
    case 5 => Msm5InPlace(s, i, nsat, ncell);
    case 6 => Msm6InPlace(s, i, nsat, ncell);
    case 7 => Msm7InPlace(s, i, nsat, ncell);
  }

  /**
   m is what the message holds, in the terms of its bits: there is something
   exactly if header and columns fit the message, and every number of every
   column is read where it stands.
   */
  predicate MsmInPlace(kind: nat, s: bits, nbits: nat, sys: System, f: Following, m: Option<MsmMessage>)
    requires nbits <= |s|
  {
    var h := ParseHead(s, nbits, sys, f);
    && (m.Some? <==>
          h.Some? && 193 + |h.value.cellmask| + ColumnsLength(kind, |h.value.sats|, Ones(h.value.cellmask)) <= nbits)
    && (m.Some? ==>
          && m.value.head == h.value
          && ColumnsAt(kind, s, 193 + |h.value.cellmask|, |h.value.sats|, Ones(h.value.cellmask), m.value.cols))
  }

  lemma ParsedInPlace(kind: nat, s: bits, nbits: nat, sys: System, f: Following)
    requires 4 <= kind <= 7 && nbits <= |s|
    ensures MsmInPlace(kind, s, nbits, sys, f, ParseMsm(FormatsOf(kind), s, nbits, sys, f))
  {
    hide ParseHead, BodyExtent, ReadBody, Ones, ColumnsAt, ColumnsLength, FormatsOf;
    match ParseHead(s, nbits, sys, f)
    case None =>
    case Some(h) => ColumnsInPlace(kind, s, 193 + |h.cellmask|, |h.sats|, Ones(h.cellmask));
  }

  // -------------------------------------------------------------- decoding

  /** for (j=1;j<=n;j++) { mask=getbitu(buff,i,1); i+=1; if (mask) ids[k++]=j; } */
  method GetMask(buff: array<byte>, i: nat, n: nat) returns (ids: seq<nat>, next: nat)
    requires i + n <= 8 * buff.Length
    ensures next == i + n && ids == Ids(BitsOf(buff[..])[i..i + n])
  {
    hide BitsOf, Value;
    ghost var m := BitsOf(buff[..])[i..i + n];
    ids, next := [], i;
    for j := 1 to n + 1
      invariant next == i + (j - 1) && ids == IdsUpTo(m, j - 1)
    {
      var mask := GetBitu(buff, next, 1);
      OneBit(BitsOf(buff[..]), next);
      assert m[j - 1] == BitsOf(buff[..])[next];
      next := next + 1;
      if mask != 0 {
        ids := ids + [j];
      }
    }
  }

  /** The cell mask, and how many cells it names. */
  method GetCells(buff: array<byte>, i: nat, n: nat) returns (cells: bits, ncell: nat, next: nat)
    requires i + n <= 8 * buff.Length
    ensures next == i + n && cells == BitsOf(buff[..])[i..i + n] && ncell == Ones(cells)
  {
    hide BitsOf, Value;
    ghost var m := BitsOf(buff[..])[i..i + n];
    cells, ncell, next := [], 0, i;
    for j := 0 to n
      invariant next == i + j && cells == m[..j] && ncell == Count(m, j)
    {
      var mask := GetBitu(buff, next, 1);
      OneBit(BitsOf(buff[..]), next);
      assert m[j] == BitsOf(buff[..])[next] && m[..j + 1] == m[..j] + [m[j]];
      next := next + 1;
      cells := cells + [mask != 0];
      if mask != 0 {
        ncell := ncell + 1;
      }
    }
    assert m[..n] == m;
  }

  /** The fields of the fixed part, one after another. */
  method GetFixed(buff: array<byte>, sys: System) returns (h: MsmHeader)
    requires 193 <= 8 * buff.Length
    ensures h == ReadFixed(BitsOf(buff[..]), sys)
  {
    hide BitsOf, Value;
    var i := 24 + 12;
    var staid := GetBitu(buff, i, 12); i := i + 12;
    var epoch;
    if sys == GLO {
      var dow := GetBitu(buff, i, 3); i := i + 3;
      var tod := GetBitu(buff, i, 27); i := i + 27;
      epoch := Glonass(dow, tod);
    } else {
      var tow := GetBitu(buff, i, 30); i := i + 30;
      epoch := Tow(tow);
    }
    var sync := GetBitu(buff, i, 1); i := i + 1;
    var iod := GetBitu(buff, i, 3); i := i + 3;
    var timeS := GetBitu(buff, i, 7); i := i + 7;
    var clkStr := GetBitu(buff, i, 2); i := i + 2;
    var clkExt := GetBitu(buff, i, 2); i := i + 2;
    var smooth := GetBitu(buff, i, 1); i := i + 1;
    var tintS := GetBitu(buff, i, 3); i := i + 3;
    h := MsmHeader(staid, epoch, sync, iod, timeS, clkStr, clkExt, smooth, tintS, [], [], []);
  }

  /** The week of the time is adjusted elsewhere; len is the message's length without parity, in bytes. */
  method DecodeMsmHead(buff: array<byte>, len: nat, sys: System, f: Following)
    returns (h: Option<MsmHeader>, ncell: nat, hsize: nat)
    requires len <= buff.Length
    ensures h == ParseHead(BitsOf(buff[..]), 8 * len, sys, f)
    ensures HeadTells(BitsOf(buff[..]), 8 * len, sys, f, h)
    ensures h.Some? ==> ncell == Ones(h.value.cellmask) && hsize == 193 + |h.value.cellmask| <= 8 * len
  {
    hide BitsOf, Value, Ids, Ones, Count, ReadEpoch, StaidOk, HeadTells;
    ParsedHeadTells(BitsOf(buff[..]), 8 * len, sys, f);
    if 24 + 12 + 157 > len * 8 {
      return None, 0, 0;
    }
    var fixed := GetFixed(buff, sys);
    var i := 97;
    var sats, sigs;
    sats, i := GetMask(buff, i, 64);
    sigs, i := GetMask(buff, i, 32);
    if !StaidOk(f, fixed.staid) {
      return None, 0, 0;
    }
    if |sats| * |sigs| > 64 {
      return None, 0, 0;
    }
    if i + |sats| * |sigs| > len * 8 {
      return None, 0, 0;
    }
    var cells;
    cells, ncell, hsize := GetCells(buff, i, |sats| * |sigs|);
    h := Some(fixed.(sats := sats, sigs := sigs, cellmask := cells));
  }

  /** The next column, behind those already read. */
  method GetNextColumn(buff: array<byte>, fmt: seq<Format>, pos: nat, nsat: nat, ncell: nat, cols: seq<seq<int>>)
    returns (more: seq<seq<int>>)
    requires ValidFormats(fmt) && |cols| < |fmt| && pos + BodyExtent(fmt, nsat, ncell, |fmt|) <= 8 * buff.Length
    requires pos + BodyExtent(fmt, nsat, ncell, |cols|) <= 8 * buff.Length
    requires cols == ReadBody(fmt, BitsOf(buff[..]), pos, nsat, ncell, |cols|)
    ensures |more| == |cols| + 1 && pos + BodyExtent(fmt, nsat, ncell, |more|) <= 8 * buff.Length
    ensures more == ReadBody(fmt, BitsOf(buff[..]), pos, nsat, ncell, |more|)
  {
    hide BitsOf, Extent;
    var k := |cols|;
    BodyGrows(fmt, nsat, ncell, |fmt|);
    assert BodyExtent(fmt, nsat, ncell, k + 1) ==
           BodyExtent(fmt, nsat, ncell, k) + Extent(Entries(fmt[k], nsat, ncell), fmt[k].width);
    var column, _ := GetColumn(buff, pos + BodyExtent(fmt, nsat, ncell, k), fmt[k].width, fmt[k].signed,
                               Entries(fmt[k], nsat, ncell));
    more := cols + [column];
  }

  method DecodeMsm4(buff: array<byte>, len: nat, sys: System, f: Following) returns (m: Option<MsmMessage>)
    requires len <= buff.Length
    ensures ValidFormats(MSM4) && m == ParseMsm(MSM4, BitsOf(buff[..]), 8 * len, sys, f)
    ensures MsmInPlace(4, BitsOf(buff[..]), 8 * len, sys, f, m)
  {
    hide BitsOf, ParseHead, BodyExtent, ReadBody, Ones, ColumnsAt;
    ParsedInPlace(4, BitsOf(buff[..]), 8 * len, sys, f);
    var head, ncell, i := DecodeMsmHead(buff, len, sys, f);
    if head.None? {
      return None;
    }
    var nsat := |head.value.sats|;
    BodySizes(nsat, ncell);
    if i + nsat * 18 + ncell * 48 > len * 8 {
      return None;
    }
    ReadNothing(MSM4, BitsOf(buff[..]), i, nsat, ncell);
    var cols := [];
    cols := GetNextColumn(buff, MSM4, i, nsat, ncell, cols);  // range
    cols := GetNextColumn(buff, MSM4, i, nsat, ncell, cols);
    cols := GetNextColumn(buff, MSM4, i, nsat, ncell, cols);  // pseudorange
    cols := GetNextColumn(buff, MSM4, i, nsat, ncell, cols);  // phaserange
    cols := GetNextColumn(buff, MSM4, i, nsat, ncell, cols);  // lock time
    cols := GetNextColumn(buff, MSM4, i, nsat, ncell, cols);  // half-cycle ambiguity
    cols := GetNextColumn(buff, MSM4, i, nsat, ncell, cols);  // cnr
    m := Some(MsmMessage(head.value, cols));
  }

  method DecodeMsm7(buff: array<byte>, len: nat, sys: System, f: Following) returns (m: Option<MsmMessage>)
    requires len <= buff.Length
    ensures ValidFormats(MSM7) && m == ParseMsm(MSM7, BitsOf(buff[..]), 8 * len, sys, f)
    ensures MsmInPlace(7, BitsOf(buff[..]), 8 * len, sys, f, m)
  {
    hide BitsOf, ParseHead, BodyExtent, ReadBody, Ones, ColumnsAt;
    ParsedInPlace(7, BitsOf(buff[..]), 8 * len, sys, f);
    var head, ncell, i := DecodeMsmHead(buff, len, sys, f);
    if head.None? {
      return None;
    }
    var nsat := |head.value.sats|;
    BodySizes(nsat, ncell);
    if i + nsat * 36 + ncell * 80 > len * 8 {
      return None;
    }
    ReadNothing(MSM7, BitsOf(buff[..]), i, nsat, ncell);
    var cols := [];
    cols := GetNextColumn(buff, MSM7, i, nsat, ncell, cols);  // range
    cols := GetNextColumn(buff, MSM7, i, nsat, ncell, cols);  // extended info
    cols := GetNextColumn(buff, MSM7, i, nsat, ncell, cols);
    cols := GetNextColumn(buff, MSM7, i, nsat, ncell, cols);  // phaserangerate
    cols := GetNextColumn(buff, MSM7, i, nsat, ncell, cols);  // pseudorange
    cols := GetNextColumn(buff, MSM7, i, nsat, ncell, cols);  // phaserange
    cols := GetNextColumn(buff, MSM7, i, nsat, ncell, cols);  // lock time
    cols := GetNextColumn(buff, MSM7, i, nsat, ncell, cols);  // half-cycle ambiguity
    cols := GetNextColumn(buff, MSM7, i, nsat, ncell, cols);  // cnr
    cols := GetNextColumn(buff, MSM7, i, nsat, ncell, cols);  // phaserangerate
    m := Some(MsmMessage(head.value, cols));
  }

  /** The switch of decode_rtcm3, as far as it leads to decode_msm4 and decode_msm7. */
  function MsmOfType(t: int): Option<(System, nat)> {
    match t
    case 1074 => Some((GPS, 4)) case 1077 => Some((GPS, 7))
    case 1084 => Some((GLO, 4)) case 1087 => Some((GLO, 7))
    case 1094 => Some((GAL, 4)) case 1097 => Some((GAL, 7))
    case 1104 => Some((SBS, 4)) case 1107 => Some((SBS, 7))
    case 1114 => Some((QZS, 4)) case 1117 => Some((QZS, 7))
    case 1124 => Some((CMP, 4)) case 1127 => Some((CMP, 7))
    case _ => None
  }

  /** The decoder's switch undoes the number that the encoder gives a message. */
  lemma NumberMatchesSwitch(sys: System, n: nat, t: int)
    requires n == 4 || n == 7
    ensures MsmOfType(t) == Some((sys, n)) <==> t == MessageNumber(sys, n)
  {
  }

  /** decode_rtcm3 on an MSM4 or MSM7; None for other types, which are not followed here. */
  method DecodeRtcm3(buff: array<byte>, len: nat, f: Following) returns (m: Option<MsmMessage>)
    requires len <= buff.Length && 36 <= 8 * buff.Length
    ensures var s := BitsOf(buff[..]); var kind := MsmOfType(Value(s[24..36]));
            m == if kind.None? then None
                 else ParseMsm(FormatsOf(kind.value.1), s, 8 * len, kind.value.0, f)
  {
    hide BitsOf, Value, ParseMsm, MsmInPlace;
    var messageType := GetBitu(buff, 24, 12);
    var kind := MsmOfType(messageType);
    if kind.None? {
      return None;
    }
    if kind.value.1 == 4 {
      m := DecodeMsm4(buff, len, kind.value.0, f);
    } else {
      m := DecodeMsm7(buff, len, kind.value.0, f);
    }
  }

  lemma ReadNothing(fmt: seq<Format>, s: bits, pos: nat, nsat: nat, ncell: nat)
    requires ValidFormats(fmt) && pos + BodyExtent(fmt, nsat, ncell, |fmt|) <= |s|
    ensures pos + BodyExtent(fmt, nsat, ncell, 0) <= |s| && ReadBody(fmt, s, pos, nsat, ncell, 0) == []
  {
  }
}
