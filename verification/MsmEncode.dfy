/**
 RTKLIB's MSM encoder (c/rtklib/rtcm3e.c): encode_msm_head and the columns of
 encode_msm4 and encode_msm7, from the integers that go into the fields.
 */
module MsmEncode {
  import opened Bits
  import opened BitFields
  import opened Layout
  import opened MsmMasks
  import opened MsmIndex
  import opened MsmPlaces

  datatype System = GPS | GLO | GAL | QZS | SBS | CMP

  /** The message number of MSM n of a constellation. */
  function MessageNumber(sys: System, n: nat): nat {
    n + match sys
        case GPS => 1070
        case GLO => 1080
        case GAL => 1090
        case SBS => 1100
        case QZS => 1110
        case CMP => 1120
  }

  /** The integers of a header; the epoch is the whole 30-bit field. */
  datatype Head = Head(messageType: uint32, staid: uint32, epoch: uint32, sync: uint32, seqno: uint32)

  /** The fixed part, up to the masks. */
  function FixedBits(h: Head): (w: bits)
    ensures |w| == 73
  {
    ToBits(h.messageType, 12) + ToBits(h.staid, 12) + ToBits(h.epoch, 30) + ToBits(h.sync, 1) + ToBits(h.seqno, 3)
    + ToBits(0, 7) + ToBits(0, 2) + ToBits(0, 2) + ToBits(0, 1) + ToBits(0, 3)
  }

  /** No more than 64 cells go into the cell mask. */
  function Written(cells: bits): (w: bits)
    ensures |w| <= 64 && (|cells| <= 64 ==> w == cells)
  {
    if |cells| <= 64 then cells else cells[..64]
  }

  function HeadBits(h: Head, ps: seq<Signal>): bits
    requires Proper(ps)
  {
    FixedBits(h) + SatMask(ps) + SigMask(ps) + Written(CellMask(ps))
  }

  // --------------------------------------------------------------- columns

  /**
   A column's field, the function that writes it, whether it is read as a
   signed number, and whether it has an entry for each cell or each satellite.
   */
  datatype Format = Format(width: nat, setter: Setter, signed: bool, perCell: bool)

  predicate ValidFormats(fmt: seq<Format>) {
    forall k :: 0 <= k < |fmt| ==> 1 <= fmt[k].width <= 32 && (fmt[k].setter == Setbits ==> fmt[k].signed)
  }

  function UnsignedColumn(width: nat, perCell: bool): Format {
    Format(width, Setbitu, false, perCell)
  }

  function SignedColumn(width: nat, perCell: bool): Format {
    Format(width, Setbits, true, perCell)
  }

  const MSM4: seq<Format> := [
    UnsignedColumn(8, false), UnsignedColumn(10, false),
    SignedColumn(15, true), SignedColumn(22, true),
    UnsignedColumn(4, true), UnsignedColumn(1, true), UnsignedColumn(6, true)]

  /** The last column goes through setbitu although its numbers have a sign. */
  const MSM7: seq<Format> := [
    UnsignedColumn(8, false), UnsignedColumn(4, false), UnsignedColumn(10, false), SignedColumn(14, false),
    SignedColumn(20, true), SignedColumn(24, true),
    UnsignedColumn(10, true), UnsignedColumn(1, true), UnsignedColumn(10, true),
    Format(15, Setbitu, true, true)]

  /** The columns of MSM n; 5 and 6 combine those of 4 and 7. */
  function FormatsOf(n: nat): (fmt: seq<Format>)
    requires 4 <= n <= 7
    ensures ValidFormats(fmt) && HalfColumn(n) < |fmt| && fmt[HalfColumn(n)] == UnsignedColumn(1, true)
  {
    match n
    case 4 => MSM4
    case 5 => MSM7[..4] + MSM4[2..] + MSM7[9..]
    case 6 => MSM4[..2] + MSM7[4..9]
    case 7 => MSM7
  }

  /** The column of half-cycle ambiguity indicators. */
  function HalfColumn(n: nat): nat {
    if n % 2 == 0 then 5 else 7
  }

  function Entries(f: Format, nsat: nat, ncell: nat): nat {
    if f.perCell then ncell else nsat
  }

  /** Columns of the right heights, holding numbers the setters take. */
  ghost predicate Fitting(fmt: seq<Format>, cols: seq<seq<int>>, nsat: nat, ncell: nat) {
    && |cols| == |fmt|
    && forall k :: 0 <= k < |fmt| ==>
         && |cols[k]| == Entries(fmt[k], nsat, ncell)
         && forall j :: 0 <= j < |cols[k]| ==> Settable(cols[k][j], fmt[k].signed)
  }

  /** The first n columns, one after another. */
  function BodyBits(fmt: seq<Format>, cols: seq<seq<int>>, n: nat): bits
    requires ValidFormats(fmt) && n <= |fmt| && |cols| == |fmt|
  {
    if n == 0 then [] else BodyBits(fmt, cols, n - 1) + ColumnBits(fmt[n - 1].width, fmt[n - 1].setter, cols[n - 1])
  }

  function BodyExtent(fmt: seq<Format>, nsat: nat, ncell: nat, n: nat): nat
    requires n <= |fmt|
  {
    if n == 0 then 0
    else BodyExtent(fmt, nsat, ncell, n - 1) + Extent(Entries(fmt[n - 1], nsat, ncell), fmt[n - 1].width)
  }

  lemma {:induction false} BodyLength(fmt: seq<Format>, cols: seq<seq<int>>, nsat: nat, ncell: nat, n: nat)
    requires ValidFormats(fmt) && n <= |fmt| && Fitting(fmt, cols, nsat, ncell)
    ensures |BodyBits(fmt, cols, n)| == BodyExtent(fmt, nsat, ncell, n)
  {
    if n > 0 {
      BodyLength(fmt, cols, nsat, ncell, n - 1);
      ColumnLength(fmt[n - 1].width, fmt[n - 1].setter, cols[n - 1]);
    }
  }

  /** The sizes that the decoder's length checks use. */
  lemma BodySizes(nsat: nat, ncell: nat)
    ensures ValidFormats(MSM4) && BodyExtent(MSM4, nsat, ncell, 7) == nsat * 18 + ncell * 48
    ensures ValidFormats(MSM7) && BodyExtent(MSM7, nsat, ncell, 10) == nsat * 36 + ncell * 80
  {
    RangeExtents(MSM4, nsat, ncell);
    SignalExtents(MSM4, nsat, ncell, 2);
    ExtendedRangeExtents(MSM7, nsat, ncell);
    FineSignalExtents(MSM7, nsat, ncell, 4);
    NextExtent(MSM7, nsat, ncell, 9);
  }

  lemma NextExtent(fmt: seq<Format>, nsat: nat, ncell: nat, k: nat)
    requires k < |fmt|
    ensures BodyExtent(fmt, nsat, ncell, 0) == 0
    ensures BodyExtent(fmt, nsat, ncell, k + 1) ==
            BodyExtent(fmt, nsat, ncell, k) + Entries(fmt[k], nsat, ncell) * fmt[k].width
  {
  }

  // The parts that the formats consist of, each where the one before it ends.

  predicate HasRanges(fmt: seq<Format>) {
    |fmt| >= 2 && fmt[0] == UnsignedColumn(8, false) && fmt[1] == UnsignedColumn(10, false)
  }

  predicate HasExtendedRanges(fmt: seq<Format>) {
    && |fmt| >= 4 && fmt[0] == UnsignedColumn(8, false) && fmt[1] == UnsignedColumn(4, false)
    && fmt[2] == UnsignedColumn(10, false) && fmt[3] == SignedColumn(14, false)
  }

  predicate HasSignals(fmt: seq<Format>, k: nat) {
    && k + 5 <= |fmt| && fmt[k] == SignedColumn(15, true) && fmt[k + 1] == SignedColumn(22, true)
    && fmt[k + 2] == UnsignedColumn(4, true) && fmt[k + 3] == UnsignedColumn(1, true)
    && fmt[k + 4] == UnsignedColumn(6, true)
  }

  predicate HasFineSignals(fmt: seq<Format>, k: nat) {
    && k + 5 <= |fmt| && fmt[k] == SignedColumn(20, true) && fmt[k + 1] == SignedColumn(24, true)
    && fmt[k + 2] == UnsignedColumn(10, true) && fmt[k + 3] == UnsignedColumn(1, true)
    && fmt[k + 4] == UnsignedColumn(10, true)
  }

  lemma RangeExtents(fmt: seq<Format>, nsat: nat, ncell: nat)
    requires HasRanges(fmt)
    ensures BodyExtent(fmt, nsat, ncell, 0) == 0 && BodyExtent(fmt, nsat, ncell, 1) == 8 * nsat
    ensures BodyExtent(fmt, nsat, ncell, 2) == 18 * nsat
  {
    NextExtent(fmt, nsat, ncell, 0);
    NextExtent(fmt, nsat, ncell, 1);
  }

  lemma ExtendedRangeExtents(fmt: seq<Format>, nsat: nat, ncell: nat)
    requires HasExtendedRanges(fmt)
    ensures BodyExtent(fmt, nsat, ncell, 0) == 0 && BodyExtent(fmt, nsat, ncell, 1) == 8 * nsat
    ensures BodyExtent(fmt, nsat, ncell, 2) == 12 * nsat && BodyExtent(fmt, nsat, ncell, 3) == 22 * nsat
    ensures BodyExtent(fmt, nsat, ncell, 4) == 36 * nsat
  {
    NextExtent(fmt, nsat, ncell, 0);
    NextExtent(fmt, nsat, ncell, 1);
    NextExtent(fmt, nsat, ncell, 2);
    NextExtent(fmt, nsat, ncell, 3);
  }

  lemma SignalExtents(fmt: seq<Format>, nsat: nat, ncell: nat, k: nat)
    requires HasSignals(fmt, k)
    ensures var at := BodyExtent(fmt, nsat, ncell, k);
            && BodyExtent(fmt, nsat, ncell, k + 1) == at + 15 * ncell
            && BodyExtent(fmt, nsat, ncell, k + 2) == at + 37 * ncell
            && BodyExtent(fmt, nsat, ncell, k + 3) == at + 41 * ncell
            && BodyExtent(fmt, nsat, ncell, k + 4) == at + 42 * ncell
            && BodyExtent(fmt, nsat, ncell, k + 5) == at + 48 * ncell
  {
    hide BodyExtent;
    NextExtent(fmt, nsat, ncell, k);
    NextExtent(fmt, nsat, ncell, k + 1);
    NextExtent(fmt, nsat, ncell, k + 2);
    NextExtent(fmt, nsat, ncell, k + 3);
    NextExtent(fmt, nsat, ncell, k + 4);
  }

  lemma FineSignalExtents(fmt: seq<Format>, nsat: nat, ncell: nat, k: nat)
    requires HasFineSignals(fmt, k)
    ensures var at := BodyExtent(fmt, nsat, ncell, k);
            && BodyExtent(fmt, nsat, ncell, k + 1) == at + 20 * ncell
            && BodyExtent(fmt, nsat, ncell, k + 2) == at + 44 * ncell
            && BodyExtent(fmt, nsat, ncell, k + 3) == at + 54 * ncell
            && BodyExtent(fmt, nsat, ncell, k + 4) == at + 55 * ncell
            && BodyExtent(fmt, nsat, ncell, k + 5) == at + 65 * ncell
  {
    hide BodyExtent;
    NextExtent(fmt, nsat, ncell, k);
    NextExtent(fmt, nsat, ncell, k + 1);
    NextExtent(fmt, nsat, ncell, k + 2);
    NextExtent(fmt, nsat, ncell, k + 3);
    NextExtent(fmt, nsat, ncell, k + 4);
  }

  // ------------------------------------------------- places of what is written

  /** The column is written where and as its format says. */
  predicate ColumnWritten(s: bits, at: nat, f: Format, col: seq<int>)
    requires f.width >= 1
  {
    if f.setter == Setbits then SignedWrittenAt(s, at, f.width, col) else WrittenAt(s, at, f.width, col)
  }

  lemma {:induction false} WrittenColumn(fmt: seq<Format>, s: bits, i: nat, cols: seq<seq<int>>, nsat: nat, ncell: nat,
                                         n: nat, k: nat)
    requires ValidFormats(fmt) && k < n <= |fmt| && Fitting(fmt, cols, nsat, ncell)
    requires Holds(s, i, BodyBits(fmt, cols, n))
    ensures |cols[k]| == Entries(fmt[k], nsat, ncell)
    ensures ColumnWritten(s, i + BodyExtent(fmt, nsat, ncell, k), fmt[k], cols[k])
  {
    hide Holds, FieldBits, Extent;
    HoldsBoth(s, i, BodyBits(fmt, cols, n - 1), ColumnBits(fmt[n - 1].width, fmt[n - 1].setter, cols[n - 1]));
    BodyLength(fmt, cols, nsat, ncell, n - 1);
    if k < n - 1 {
      WrittenColumn(fmt, s, i, cols, nsat, ncell, n - 1, k);
    } else {
      PlacesOf(s, i + BodyExtent(fmt, nsat, ncell, k), fmt[k], cols[k]);
    }
  }

  lemma PlacesOf(s: bits, at: nat, f: Format, col: seq<int>)
    requires f.width >= 1 && Holds(s, at, ColumnBits(f.width, f.setter, col))
    ensures ColumnWritten(s, at, f, col)
  {
    ColumnBitsPlaces(s, at, f.width, f.setter, col);
  }

  /** The columns of an MSM4 stand at their places. */
  lemma Msm4Places(s: bits, i: nat, cols: seq<seq<int>>, nsat: nat, ncell: nat)
    requires ValidFormats(MSM4) && Fitting(MSM4, cols, nsat, ncell) && Holds(s, i, BodyBits(MSM4, cols, 7))
    ensures Msm4WrittenAt(s, i, nsat, ncell, cols)
  {
    hide Holds, WrittenAt, SignedWrittenAt, BodyExtent, BodyBits;
    RangeExtents(MSM4, nsat, ncell);
    SignalExtents(MSM4, nsat, ncell, 2);
    forall k | 0 <= k < 7
      ensures |cols[k]| == Entries(MSM4[k], nsat, ncell)
      ensures ColumnWritten(s, i + BodyExtent(MSM4, nsat, ncell, k), MSM4[k], cols[k])
    {
      WrittenColumn(MSM4, s, i, cols, nsat, ncell, 7, k);
    }
  }

  /** And those of an MSM7. */
  lemma Msm7Places(s: bits, i: nat, cols: seq<seq<int>>, nsat: nat, ncell: nat)
    requires ValidFormats(MSM7) && Fitting(MSM7, cols, nsat, ncell) && Holds(s, i, BodyBits(MSM7, cols, 10))
    ensures Msm7WrittenAt(s, i, nsat, ncell, cols)
  {
    hide Holds, WrittenAt, SignedWrittenAt, BodyExtent, BodyBits;
    ExtendedRangeExtents(MSM7, nsat, ncell);
    FineSignalExtents(MSM7, nsat, ncell, 4);
    forall k | 0 <= k < 10
      ensures |cols[k]| == Entries(MSM7[k], nsat, ncell)
      ensures ColumnWritten(s, i + BodyExtent(MSM7, nsat, ncell, k), MSM7[k], cols[k])
    {
      WrittenColumn(MSM7, s, i, cols, nsat, ncell, 10, k);
    }
  }

  // -------------------------------------------------------------- encoding

  /** for (j=0;j<n;j++) { setbitu(buff,i,1,ind[j]?1:0); i+=1; } */
  method PutMask(buff: array<byte>, i: nat, ind: seq<nat>, n: nat, ghost m: bits, ghost s: bits, ghost start: nat,
                 ghost w: bits)
    returns (next: nat, ghost w': bits)
    requires n <= |m| && IsMaskOf(ind, m)
    requires i + n <= 8 * buff.Length == |s| && i == start + |w| && BitsOf(buff[..]) == Overwrite(s, start, w)
    modifies buff
    ensures next == i + n == start + |w'| && w' == w + m[..n] && BitsOf(buff[..]) == Overwrite(s, start, w')
  {
    hide BitsOf, ToBits;
    next, w' := i, w;
    assert w + m[..0] == w;
    for j := 0 to n
      invariant next == i + j == start + |w'| && w' == w + m[..j] && BitsOf(buff[..]) == Overwrite(s, start, w')
    {
      var bit := if ind[j] != 0 then 1 else 0;
      OneBitNumeral(ind[j] != 0);
      assert m[..j + 1] == m[..j] + [m[j]];
      Regroup(w, m[..j], [m[j]]);
      next, w' := PutBits(buff, next, 1, bit, s, start, w');
    }
  }

  lemma OneBitNumeral(b: bool)
    ensures ToBits(if b then 1 else 0, 1) == [b]
  {
  }

  /** The fixed part of the header, field by field. */
  method PutFixed(buff: array<byte>, h: Head) returns (i: nat)
    requires 24 + 73 <= 8 * buff.Length
    modifies buff
    ensures i == 24 + 73 && BitsOf(buff[..]) == Overwrite(old(BitsOf(buff[..])), 24, FixedBits(h))
  {
    hide BitsOf, ToBits;
    ghost var s, w := BitsOf(buff[..]), [];
    assert Overwrite(s, 24, w) == s;
    i := 24;
    i, w := PutBits(buff, i, 12, h.messageType, s, 24, w);
    i, w := PutBits(buff, i, 12, h.staid, s, 24, w);
    i, w := PutBits(buff, i, 30, h.epoch, s, 24, w);
    i, w := PutBits(buff, i, 1, h.sync, s, 24, w);
    i, w := PutBits(buff, i, 3, h.seqno, s, 24, w);
    i, w := PutBits(buff, i, 7, 0, s, 24, w);
    i, w := PutBits(buff, i, 2, 0, s, 24, w);
    i, w := PutBits(buff, i, 2, 0, s, 24, w);
    i, w := PutBits(buff, i, 1, 0, s, 24, w);
    i, w := PutBits(buff, i, 3, 0, s, 24, w);
    assert [] + ToBits(h.messageType, 12) == ToBits(h.messageType, 12);
  }

  method EncodeMsmHead(buff: array<byte>, h: Head, obs: seq<Obs>) returns (i: nat, nsat: nat, ncell: nat)
    requires InRange(obs) && 24 + 73 + 64 + 32 + 64 <= 8 * buff.Length
    modifies buff
    ensures Proper(SignalsOf(obs, |obs|))
    ensures var ps := SignalsOf(obs, |obs|);
            && nsat == Ones(SatMask(ps)) && ncell == (if Ones(CellMask(ps)) < 64 then Ones(CellMask(ps)) else 64)
            && i == 24 + |HeadBits(h, ps)|
            && BitsOf(buff[..]) == Overwrite(old(BitsOf(buff[..])), 24, HeadBits(h, ps))
  {
    hide BitsOf, ToBits, FixedBits, SatMask, SigMask, CellMask, Ones, Written, Overwrite, Proper, InRange, SignalsOf;
    var satInd, sigInd, cellInd := new nat[64](_ => 0), new nat[32](_ => 0), new nat[64 * 32](_ => 0);
    var nsig;
    nsat, nsig, ncell := GenMsmIndex(obs, satInd, sigInd, cellInd);
    ghost var s, ps := BitsOf(buff[..]), SignalsOf(obs, |obs|);
    NumbersMark(satInd, SatMask(ps), 64);
    NumbersMark(sigInd, SigMask(ps), 32);
    NumbersMark(cellInd, CellMask(ps), 64);
    i := PutFixed(buff, h);
    i := PutMasks(buff, satInd[..], sigInd[..], cellInd[..], nsat * nsig, ps, s, FixedBits(h));
  }

  /** The three masks; no more than 64 bits of the cell mask. */
  method PutMasks(buff: array<byte>, satInd: seq<nat>, sigInd: seq<nat>, cellInd: seq<nat>, cells: nat,
                  ghost ps: seq<Signal>, ghost s: bits, ghost fixed: bits)
    returns (i: nat)
    requires Proper(ps) && |fixed| == 73 && 24 + 73 + 64 + 32 + 64 <= 8 * buff.Length == |s|
    requires IsMaskOf(satInd, SatMask(ps)) && IsMaskOf(sigInd, SigMask(ps)) && IsMaskOf(cellInd, CellMask(ps))
    requires cells == Ones(SatMask(ps)) * Ones(SigMask(ps)) && BitsOf(buff[..]) == Overwrite(s, 24, fixed)
    modifies buff
    ensures var w := fixed + SatMask(ps) + SigMask(ps) + Written(CellMask(ps));
            i == 24 + |w| && BitsOf(buff[..]) == Overwrite(s, 24, w)
  {
    hide BitsOf, SatMask, SigMask, CellMask, Ones, Written, Overwrite, Proper;
    ghost var w := fixed;
    CellsWritten(ps, cells);
    assert SatMask(ps)[..64] == SatMask(ps) && SigMask(ps)[..32] == SigMask(ps);
    i := 24 + 73;
    i, w := PutMask(buff, i, satInd, 64, SatMask(ps), s, 24, w);
    i, w := PutMask(buff, i, sigInd, 32, SigMask(ps), s, 24, w);
    i, w := PutMask(buff, i, cellInd, if cells < 64 then cells else 64, CellMask(ps), s, 24, w);
  }

  /** Non-zero entries where the mask is set. */
  predicate IsMaskOf(ind: seq<nat>, m: bits) {
    |m| <= |ind| && forall k :: 0 <= k < |m| ==> (ind[k] != 0 <==> m[k])
  }

  lemma NumbersMark(a: array<nat>, m: bits, limit: nat)
    requires Numbers(a, m, limit)
    ensures IsMaskOf(a[..], m)
  {
  }

  lemma CellsWritten(ps: seq<Signal>, n: nat)
    requires Proper(ps) && n == Ones(SatMask(ps)) * Ones(SigMask(ps))
    ensures |CellMask(ps)| == n && Written(CellMask(ps)) == CellMask(ps)[..if n < 64 then n else 64]
  {
  }

  /** One more column after those already written. */
  method PutNextColumn(buff: array<byte>, i: nat, fmt: seq<Format>, cols: seq<seq<int>>, k: nat,
                       ghost nsat: nat, ghost ncell: nat, ghost s: bits, ghost head: bits)
    returns (next: nat)
    requires ValidFormats(fmt) && Fitting(fmt, cols, nsat, ncell) && k < |fmt|
    requires 8 * buff.Length == |s| && i == 24 + |head + BodyBits(fmt, cols, k)| <= |s|
    requires 24 + |head| + BodyExtent(fmt, nsat, ncell, |fmt|) <= |s|
    requires BitsOf(buff[..]) == Overwrite(s, 24, head + BodyBits(fmt, cols, k))
    modifies buff
    ensures next == 24 + |head + BodyBits(fmt, cols, k + 1)| <= |s|
    ensures BitsOf(buff[..]) == Overwrite(s, 24, head + BodyBits(fmt, cols, k + 1))
  {
    hide BitsOf, Extent;
    BodyLength(fmt, cols, nsat, ncell, k);
    BodyGrows(fmt, nsat, ncell, |fmt|);
    assert BodyExtent(fmt, nsat, ncell, k + 1) == BodyExtent(fmt, nsat, ncell, k) + Extent(|cols[k]|, fmt[k].width);
    Regroup(head, BodyBits(fmt, cols, k), ColumnBits(fmt[k].width, fmt[k].setter, cols[k]));
    ghost var w;
    next, w := PutColumn(buff, i, fmt[k].width, fmt[k].setter, fmt[k].signed, cols[k], s, 24,
                          head + BodyBits(fmt, cols, k));
  }

  /** The most bits a message can take, whatever the observations: gen_rtcm3 never rejects it. */
  lemma BodyFits(h: Head, ps: seq<Signal>, nsat: nat, ncell: nat)
    requires Proper(ps) && nsat <= 64 && ncell <= 64
    ensures ValidFormats(MSM4) && ValidFormats(MSM7)
    ensures 24 + |HeadBits(h, ps)| + BodyExtent(MSM4, nsat, ncell, 7) <= 8 * 1026
    ensures 24 + |HeadBits(h, ps)| + BodyExtent(MSM7, nsat, ncell, 10) <= 8 * 1026
  {
    BodySizes(nsat, ncell);
  }

  method EncodeMsm4(buff: array<byte>, h: Head, obs: seq<Obs>, cols: seq<seq<int>>) returns (nbit: nat)
    requires InRange(obs) && buff.Length == 1200
    requires var ps := SignalsOf(obs, |obs|);
             Proper(ps) && Fitting(MSM4, cols, Ones(SatMask(ps)), Sent(CellMask(ps)))
    modifies buff
    ensures ValidFormats(MSM4)
    ensures var w := HeadBits(h, SignalsOf(obs, |obs|)) + BodyBits(MSM4, cols, 7);
            && nbit == 24 + |w| <= 8 * 1026
            && BitsOf(buff[..]) == Overwrite(old(BitsOf(buff[..])), 24, w)
    ensures var ps := SignalsOf(obs, |obs|);
            var i, n, c := 193 + |Written(CellMask(ps))|, Ones(SatMask(ps)), Sent(CellMask(ps));
            nbit == i + 18 * n + 48 * c && Msm4WrittenAt(BitsOf(buff[..]), i, n, c, cols)
  {
    hide BitsOf, HeadBits, BodyBits, BodyExtent, Ones, Fitting, ValidFormats, SatMask, CellMask, Overwrite, Written,
         Msm4WrittenAt, Msm7WrittenAt;
    ghost var s, ps := BitsOf(buff[..]), SignalsOf(obs, |obs|);
    var i, nsat, ncell := EncodeMsmHead(buff, h, obs);
    ghost var w := HeadBits(h, ps);
    BodyFits(h, ps, nsat, ncell);
    BodyStarts(MSM4, cols, nsat, ncell, w);
    BodyLength(MSM4, cols, nsat, ncell, 7);
    i := PutNextColumn(buff, i, MSM4, cols, 0, nsat, ncell, s, w);  // rough range integer ms
    i := PutNextColumn(buff, i, MSM4, cols, 1, nsat, ncell, s, w);  // rough range modulo 1 ms
    i := PutNextColumn(buff, i, MSM4, cols, 2, nsat, ncell, s, w);  // fine pseudorange
    i := PutNextColumn(buff, i, MSM4, cols, 3, nsat, ncell, s, w);  // fine phase-range
    i := PutNextColumn(buff, i, MSM4, cols, 4, nsat, ncell, s, w);  // lock-time indicator
    i := PutNextColumn(buff, i, MSM4, cols, 5, nsat, ncell, s, w);  // half-cycle-amb indicator
    i := PutNextColumn(buff, i, MSM4, cols, 6, nsat, ncell, s, w);  // signal cnr
    Msm4InBuffer(s, h, ps, cols);
    nbit := i;
  }

  method EncodeMsm7(buff: array<byte>, h: Head, obs: seq<Obs>, cols: seq<seq<int>>) returns (nbit: nat)
    requires InRange(obs) && buff.Length == 1200
    requires var ps := SignalsOf(obs, |obs|);
             Proper(ps) && Fitting(MSM7, cols, Ones(SatMask(ps)), Sent(CellMask(ps)))
    modifies buff
    ensures ValidFormats(MSM7)
    ensures var w := HeadBits(h, SignalsOf(obs, |obs|)) + BodyBits(MSM7, cols, 10);
            && nbit == 24 + |w| <= 8 * 1026
            && BitsOf(buff[..]) == Overwrite(old(BitsOf(buff[..])), 24, w)
    ensures var ps := SignalsOf(obs, |obs|);
            var i, n, c := 193 + |Written(CellMask(ps))|, Ones(SatMask(ps)), Sent(CellMask(ps));
            nbit == i + 36 * n + 80 * c && Msm7WrittenAt(BitsOf(buff[..]), i, n, c, cols)
  {
    hide BitsOf, HeadBits, BodyBits, BodyExtent, Ones, Fitting, ValidFormats, SatMask, CellMask, Overwrite, Written,
         Msm4WrittenAt, Msm7WrittenAt;
    ghost var s, ps := BitsOf(buff[..]), SignalsOf(obs, |obs|);
    var i, nsat, ncell := EncodeMsmHead(buff, h, obs);
    ghost var w := HeadBits(h, ps);
    BodyFits(h, ps, nsat, ncell);
    BodyStarts(MSM7, cols, nsat, ncell, w);
    BodyLength(MSM7, cols, nsat, ncell, 10);
    i := PutNextColumn(buff, i, MSM7, cols, 0, nsat, ncell, s, w);  // rough range integer ms
    i := PutNextColumn(buff, i, MSM7, cols, 1, nsat, ncell, s, w);  // extended satellite info
    i := PutNextColumn(buff, i, MSM7, cols, 2, nsat, ncell, s, w);  // rough range modulo 1 ms
    i := PutNextColumn(buff, i, MSM7, cols, 3, nsat, ncell, s, w);  // rough phase-range-rate
    i := PutNextColumn(buff, i, MSM7, cols, 4, nsat, ncell, s, w);  // fine pseudorange ext
    i := PutNextColumn(buff, i, MSM7, cols, 5, nsat, ncell, s, w);  // fine phase-range ext
    i := PutNextColumn(buff, i, MSM7, cols, 6, nsat, ncell, s, w);  // lock-time indicator ext
    i := PutNextColumn(buff, i, MSM7, cols, 7, nsat, ncell, s, w);  // half-cycle-amb indicator
    i := PutNextColumn(buff, i, MSM7, cols, 8, nsat, ncell, s, w);  // signal cnr ext
    i := PutNextColumn(buff, i, MSM7, cols, 9, nsat, ncell, s, w);  // fine phase-range-rate
    Msm7InBuffer(s, h, ps, cols);
    nbit := i;
  }

  lemma HeadLength(h: Head, ps: seq<Signal>)
    requires Proper(ps)
    ensures 24 + |HeadBits(h, ps)| == 193 + |Written(CellMask(ps))|
  {
  }

  lemma BodyIsHeld(s: bits, head: bits, body: bits)
    requires 24 + |head + body| <= |s|
    ensures Holds(Overwrite(s, 24, head + body), 24 + |head|, body)
  {
    assert Overwrite(s, 24, head + body)[24..24 + |head + body|] == head + body;
    HoldsBoth(Overwrite(s, 24, head + body), 24, head, body);
  }

  lemma Msm4InBuffer(s: bits, h: Head, ps: seq<Signal>, cols: seq<seq<int>>)
    requires Proper(ps) && ValidFormats(MSM4) && Fitting(MSM4, cols, Ones(SatMask(ps)), Sent(CellMask(ps)))
    requires 24 + |HeadBits(h, ps) + BodyBits(MSM4, cols, 7)| <= |s|
    ensures var t := Overwrite(s, 24, HeadBits(h, ps) + BodyBits(MSM4, cols, 7));
            var i, n, c := 193 + |Written(CellMask(ps))|, Ones(SatMask(ps)), Sent(CellMask(ps));
            && 24 + |HeadBits(h, ps) + BodyBits(MSM4, cols, 7)| == i + 18 * n + 48 * c
            && Msm4WrittenAt(t, i, n, c, cols)
  {
    hide HeadBits, BodyBits, BodyExtent, Ones, ValidFormats, SatMask, CellMask, Overwrite, Written, Holds,
         Msm4WrittenAt;
    HeadLength(h, ps);
    BodyLength(MSM4, cols, Ones(SatMask(ps)), Sent(CellMask(ps)), 7);
    BodySizes(Ones(SatMask(ps)), Sent(CellMask(ps)));
    BodyIsHeld(s, HeadBits(h, ps), BodyBits(MSM4, cols, 7));
    Msm4Places(Overwrite(s, 24, HeadBits(h, ps) + BodyBits(MSM4, cols, 7)), 24 + |HeadBits(h, ps)|, cols,
               Ones(SatMask(ps)), Sent(CellMask(ps)));
  }

  lemma Msm7InBuffer(s: bits, h: Head, ps: seq<Signal>, cols: seq<seq<int>>)
    requires Proper(ps) && ValidFormats(MSM7) && Fitting(MSM7, cols, Ones(SatMask(ps)), Sent(CellMask(ps)))
    requires 24 + |HeadBits(h, ps) + BodyBits(MSM7, cols, 10)| <= |s|
    ensures var t := Overwrite(s, 24, HeadBits(h, ps) + BodyBits(MSM7, cols, 10));
            var i, n, c := 193 + |Written(CellMask(ps))|, Ones(SatMask(ps)), Sent(CellMask(ps));
            && 24 + |HeadBits(h, ps) + BodyBits(MSM7, cols, 10)| == i + 36 * n + 80 * c
            && Msm7WrittenAt(t, i, n, c, cols)
  {
    hide HeadBits, BodyBits, BodyExtent, Ones, ValidFormats, SatMask, CellMask, Overwrite, Written, Holds,
         Msm7WrittenAt;
    HeadLength(h, ps);
    BodyLength(MSM7, cols, Ones(SatMask(ps)), Sent(CellMask(ps)), 10);
    BodySizes(Ones(SatMask(ps)), Sent(CellMask(ps)));
    BodyIsHeld(s, HeadBits(h, ps), BodyBits(MSM7, cols, 10));
    Msm7Places(Overwrite(s, 24, HeadBits(h, ps) + BodyBits(MSM7, cols, 10)), 24 + |HeadBits(h, ps)|, cols,
               Ones(SatMask(ps)), Sent(CellMask(ps)));
  }

  /** How many cells get signal data. */
  function Sent(cells: bits): nat {
    if Ones(cells) < 64 then Ones(cells) else 64
  }

  lemma BodyStarts(fmt: seq<Format>, cols: seq<seq<int>>, nsat: nat, ncell: nat, head: bits)
    requires ValidFormats(fmt) && Fitting(fmt, cols, nsat, ncell)
    ensures head + BodyBits(fmt, cols, 0) == head
  {
  }

  lemma {:induction false} BodyGrows(fmt: seq<Format>, nsat: nat, ncell: nat, n: nat)
    requires n <= |fmt|
    ensures forall k :: 0 <= k <= n ==> BodyExtent(fmt, nsat, ncell, k) <= BodyExtent(fmt, nsat, ncell, n)
  {
    if n > 0 {
      BodyGrows(fmt, nsat, ncell, n - 1);
    }
  }
}
