/**
 An MSM all the way to BNC: from RTKLIB's encoder through gen_rtcm3, BNC's
 framer, its reader of masks and columns, and its walk over the cells.
 */
module MsmToBnc {
  import opened Bits
  import opened Frames
  import opened Layout
  import opened MsmMasks
  import opened MsmIndex
  import opened MsmEncode
  import opened MsmDecode
  import opened MsmWalk
  import opened MsmBnc
  import opened GenRtcm3
  import MsmRoundTrip
  import BncFramer
  import BncStream
  import FramersAgree

  /**
   BNC's reader on a frame from gen_rtcm3 with 1 to 64 cells: it reads every
   one but those for SBAS.  What it reads is the masks, the cells and, if the
   columns fit, the columns that were encoded, but for the one it passes over.
   */
  lemma MsmReachesBnc(f: seq<byte>, m: Outgoing)
    requires !m.Arp? && Encodable(m) && FrameOf(f, MessageBits(m)) && 1 <= |CellMask(SignalsIn(m))| <= 64
    ensures var ps, o := SignalsIn(m), OutcomeOf(BitsOf(f[3..|f| - 3]));
            && (o.Read? <==> m.sys != SBS)
            && (m.sys == SBS ==> o == Rejected)
            && (o.Read? ==>
                  && o.messageType == m.head.messageType
                  && o.sats == SatMask(ps) && o.sigs == SigMask(ps) && o.cells == CellMask(ps)
                  && (MsmRoundTrip.ColumnsFit(Formats(m), m.cols, |Formats(m)|) ==>
                        o.cols == Without(m.cols, HalfColumn(Kind(m)))))
  {
    hide HeadBits, BodyBits, BodyExtent, ParseMsm, MsmRoundTrip.HeaderOf, MsmRoundTrip.ColumnsFit, SatMask, SigMask,
         CellMask, Ids, BitsOf, Holds, Ones, CellCount, ReadBody, Without, ValidFrame, OutcomeOf, MessageType;
    var s, ps, fmt := BitsOf(f), SignalsIn(m), Formats(m);
    HoldsBoth(s, 24, HeadBits(m.head, ps), BodyBits(fmt, m.cols, |fmt|));
    MasksInPlace(s, m.head, ps);
    TypeOfMsm(f, m.head, ps, m.sys, Kind(m));
    MsmRoundTrip.MsmDecodes(fmt, s, 8 * (|f| - 3), m.head, ps, m.cols, m.sys, ANY_STATION);
    HeaderLists(m.head, ps, m.sys);
    ReadersAgree(f, m.sys, Kind(m));
    SbasRejected(f, m.sys, Kind(m));
  }

  lemma SbasRejected(f: seq<byte>, sys: System, n: nat)
    requires 4 <= n <= 7 && |f| >= 9 && MessageType(f) == MessageNumber(sys, n)
    ensures sys == SBS ==> OutcomeOf(BitsOf(f[3..|f| - 3])) == Rejected
  {
    hide StartOf, BitsOf, MessageType, ReadBody;
    StartAt(f, sys, n);
  }

  lemma MasksInPlace(s: bits, h: Head, ps: seq<Signal>)
    requires Proper(ps) && Holds(s, 24, HeadBits(h, ps)) && |CellMask(ps)| <= 64
    ensures |s| >= 193 && s[97..161] == SatMask(ps) && s[161..193] == SigMask(ps) && CellsAt(s) == |CellMask(ps)|
    ensures |s| >= 193 + |CellMask(ps)| == 24 + |HeadBits(h, ps)| && s[193..193 + |CellMask(ps)|] == CellMask(ps)
  {
    hide FixedBits, SatMask, SigMask, CellMask, Ones;
    HoldsBoth(s, 24, FixedBits(h) + SatMask(ps) + SigMask(ps), Written(CellMask(ps)));
    HoldsBoth(s, 24, FixedBits(h) + SatMask(ps), SigMask(ps));
    HoldsBoth(s, 24, FixedBits(h), SatMask(ps));
  }

  lemma HeaderLists(h: Head, ps: seq<Signal>, sys: System)
    requires Proper(ps)
    ensures var r := MsmRoundTrip.HeaderOf(h, ps, sys);
            r.cellmask == CellMask(ps) && r.sats == Ids(SatMask(ps)) && |r.sats| == Ones(SatMask(ps))
    ensures |CellMask(ps)| == |Ids(SatMask(ps))| * |Ids(SigMask(ps))|
  {
  }

  // ------------------------------------------------------------- the walk

  /** A satellite column and a cell column that BNC reads. */
  predicate Chosen(m: Outgoing, satCol: nat, cellCol: nat)
    requires !m.Arp?
  {
    && satCol < |Formats(m)| && !Formats(m)[satCol].perCell
    && cellCol < |Formats(m)| && Formats(m)[cellCol].perCell && cellCol != HalfColumn(Kind(m))
  }

  /** What the walk goes over. */
  function BlockOf(o: Outcome, satCol: nat, cellCol: nat): Block
    requires o.Read? && satCol < |o.cols| && cellCol < |o.cols|
  {
    Block(o.sats, o.sigs, o.cells, o.cols[satCol], o.cols[cellCol])
  }

  /** The message can be sent to BNC: 1 to 64 cells, columns that fit, and not for SBAS. */
  ghost predicate ForBnc(m: Outgoing) {
    && !m.Arp? && Encodable(m) && m.sys != SBS && 1 <= |CellMask(SignalsIn(m))| <= 64
    && MsmRoundTrip.ColumnsFit(Formats(m), m.cols, |Formats(m)|)
  }

  /** What BNC has read of such a message has the shape that its walk wants, and the columns that were encoded. */
  lemma BlockIsEncoded(f: seq<byte>, m: Outgoing, satCol: nat, cellCol: nat)
    requires ForBnc(m) && FrameOf(f, MessageBits(m)) && Chosen(m, satCol, cellCol)
    ensures |f| >= 6 && 1 <= |CellMask(SignalsIn(m))| <= 64
    ensures var o, ps := OutcomeOf(BitsOf(f[3..|f| - 3])), SignalsIn(m);
            && o.Read? && satCol < |o.cols| && cellCol < |o.cols|
            && BlockOf(o, satCol, cellCol) ==
               Block(SatMask(ps), SigMask(ps), CellMask(ps), m.cols[satCol], m.cols[cellCol])
            && WellSized(BlockOf(o, satCol, cellCol))
  {
    hide MessageBits, MsmRoundTrip.ColumnsFit, OutcomeOf, SatMask, SigMask, CellMask, Ones, BitsOf, ValidFrame;
    MsmReachesBnc(f, m);
    MsmRoundTrip.SentAll(CellMask(SignalsIn(m)));
  }

  /**
   On a frame from gen_rtcm3 BNC's walk over what its reader has read gives
   every encoded signal its own satellite, signal and entries, whichever two
   columns the entries come from.
   */
  lemma BncReadsSignals(f: seq<byte>, m: Outgoing, satCol: nat, cellCol: nat, q: nat)
    requires ForBnc(m) && FrameOf(f, MessageBits(m)) && Chosen(m, satCol, cellCol) && q < |SignalsIn(m)|
    ensures var o, p := OutcomeOf(BitsOf(f[3..|f| - 3])), SignalsIn(m)[q];
            && o.Read? && satCol < |o.cols| && cellCol < |o.cols|
            && ReadsSignal(BlockOf(o, satCol, cellCol), p)
            && o.cols[satCol] == m.cols[satCol] && o.cols[cellCol] == m.cols[cellCol]
  {
    hide FrameOf, MessageBits, OutcomeOf, SatMask, SigMask, CellMask, Ones, BitsOf, WellSized, ReadsSignal;
    BlockIsEncoded(f, m, satCol, cellCol);
    ReadingOfSignal(BlockOf(OutcomeOf(BitsOf(f[3..|f| - 3])), satCol, cellCol), SignalsIn(m), q);
  }

  /** The same through the code: encode, frame, find the frame in BNC's buffer, read it, walk over it. */
  method SendMsmToBnc(buff: array<byte>, m: Outgoing, satCol: nat, cellCol: nat) returns (rs: seq<Reading>)
    requires buff.Length == 1200 && ForBnc(m) && Chosen(m, satCol, cellCol)
    modifies buff
    ensures var ps := SignalsIn(m);
            var b := Block(SatMask(ps), SigMask(ps), CellMask(ps), m.cols[satCol], m.cols[cellCol]);
            && WellSized(b) && rs == Readings(b)
            && forall q :: 0 <= q < |ps| ==> ReadsSignal(b, ps[q])
  {
    hide FrameOf, Encodable, MessageBits, OutcomeOf, SatMask, SigMask, CellMask, Ones, BitsOf, WellSized, ReadsSignal,
         Readings, ForBnc;
    Sendable(m);
    MessageFits(m);
    var ok, len, nbyte := GenRtcm3.GenRtcm3(buff, m);
    var f := buff[..nbyte];
    IsFrameForBnc(f, m);
    var received := ReceiveByBnc(f);
    BlockIsEncoded(f, m, satCol, cellCol);
    var o := DecodeRTCM3MSM(received);
    rs := WalkCells(BlockOf(o, satCol, cellCol));
    forall q | 0 <= q < |SignalsIn(m)|
      ensures ReadsSignal(BlockOf(o, satCol, cellCol), SignalsIn(m)[q])
    {
      BncReadsSignals(f, m, satCol, cellCol, q);
    }
  }

  lemma Sendable(m: Outgoing)
    requires ForBnc(m)
    ensures !m.Arp? && Encodable(m)
  {
  }

  lemma IsFrameForBnc(f: seq<byte>, m: Outgoing)
    requires !m.Arp? && Encodable(m) && FrameOf(f, MessageBits(m))
    ensures ValidFrame(f) && MessageType(f) != 0
  {
    hide HeadBits, BodyBits, Holds, BitsOf, ValidFrame, MessageType;
    var ps, fmt := SignalsIn(m), Formats(m);
    HoldsBoth(BitsOf(f), 24, HeadBits(m.head, ps), BodyBits(fmt, m.cols, |fmt|));
    TypeOfMsm(f, m.head, ps, m.sys, Kind(m));
  }

  /** A frame that BNC's decoder gets in one piece. */
  method ReceiveByBnc(f: seq<byte>) returns (received: seq<byte>)
    requires ValidFrame(f) && MessageType(f) != 0
    ensures received == f
  {
    hide BncStream.DecodeFrom, BncStream.BlocksIn, BncFramer.Residue, BncFramer.FramesIn, BncFramer.Benign,
         BncFramer.LookAt, ValidFrame, MessageType;
    var decoder := new BncFramer.RTCM3Decoder();
    FoundByBnc(decoder.Abs(), f);
    var blocks, left, spins := BncStream.Decode(decoder, f);
    received := blocks[0].bytes;
  }

  lemma FoundByBnc(d: BncFramer.Decoder, f: seq<byte>)
    requires BncStream.Fresh(d) && ValidFrame(f) && MessageType(f) != 0
    ensures |BncStream.DecodeFrom(d, f).blocks| == 1 && BncStream.DecodeFrom(d, f).blocks[0].bytes == f
  {
    hide BncStream.DecodeFrom, BncFramer.Residue, BncFramer.LookAt, BncFramer.Benign, BncFramer.FramesIn,
         ValidFrame, MessageType;
    FramersAgree.BncTakesFrame(f, []);
    FramersAgree.ShortIsDone([]);
    assert f + [] == f && BncFramer.Pending(d) + f == f && [f] + [] == [f];
    BncStream.FreshIsIdle(d);
    BncStream.DecodeBenign(d, f);
    BncStream.BlocksHoldFrames(f);
  }
}
