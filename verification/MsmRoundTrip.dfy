/**
 Encoder and decoder of an MSM against each other: the message decodes exactly
 when satellites times signals is at most 64, and then it says what went in.
 */
module MsmRoundTrip {
  import opened Bits
  import opened BitFields
  import opened Frames
  import opened Layout
  import opened MsmMasks
  import opened MsmIndex
  import opened MsmEncode
  import opened MsmDecode

  /** The epoch field read back. */
  function EpochOf(epoch: nat, sys: System): Epoch {
    if sys == GLO then Glonass(epoch / Pow2(27) % Pow2(3), epoch % Pow2(27)) else Tow(epoch % Pow2(30))
  }

  /** The header that the encoder's input stands for. */
  function HeaderOf(h: Head, ps: seq<Signal>, sys: System): MsmHeader
    requires Proper(ps)
  {
    MsmHeader(h.staid % Pow2(12), EpochOf(h.epoch, sys), h.sync % Pow2(1), h.seqno % Pow2(3),
              0, 0, 0, 0, 0, Ids(SatMask(ps)), Ids(SigMask(ps)), CellMask(ps))
  }

  /** The fields of the fixed part, from the last to the first. */
  lemma FixedHolds(s: bits, h: Head)
    requires Holds(s, 24, FixedBits(h))
    ensures Holds(s, 24, ToBits(h.messageType, 12)) && Holds(s, 36, ToBits(h.staid, 12)) &&
            Holds(s, 48, ToBits(h.epoch, 30))
    ensures Holds(s, 78, ToBits(h.sync, 1)) && Holds(s, 79, ToBits(h.seqno, 3)) && Holds(s, 82, ToBits(0, 7))
    ensures Holds(s, 89, ToBits(0, 2)) && Holds(s, 91, ToBits(0, 2)) && Holds(s, 93, ToBits(0, 1)) &&
            Holds(s, 94, ToBits(0, 3))
  {
    hide ToBits, Holds;
    var w1 := ToBits(h.messageType, 12);
    var w2 := w1 + ToBits(h.staid, 12);
    var w3 := w2 + ToBits(h.epoch, 30);
    var w4 := w3 + ToBits(h.sync, 1);
    var w5 := w4 + ToBits(h.seqno, 3);
    var w6 := w5 + ToBits(0, 7);
    var w7 := w6 + ToBits(0, 2);
    var w8 := w7 + ToBits(0, 2);
    var w9 := w8 + ToBits(0, 1);
    HoldsBoth(s, 24, w9, ToBits(0, 3));
    HoldsBoth(s, 24, w8, ToBits(0, 1));
    HoldsBoth(s, 24, w7, ToBits(0, 2));
    HoldsBoth(s, 24, w6, ToBits(0, 2));
    HoldsBoth(s, 24, w5, ToBits(0, 7));
    HoldsBoth(s, 24, w4, ToBits(h.seqno, 3));
    HoldsBoth(s, 24, w3, ToBits(h.sync, 1));
    HoldsBoth(s, 24, w2, ToBits(h.epoch, 30));
    HoldsBoth(s, 24, w1, ToBits(h.staid, 12));
  }

  lemma EpochReadsBack(s: bits, epoch: nat, sys: System)
    requires |s| >= 193 && Holds(s, 48, ToBits(epoch, 30))
    ensures ReadEpoch(s, sys) == EpochOf(epoch, sys)
  {
    hide ToBits, Pow2, Holds;
    if sys == GLO {
      ToBitsSplit(epoch, 3, 27);
      HoldsBoth(s, 48, ToBits(epoch / Pow2(27), 3), ToBits(epoch, 27));
      FieldHolds(s, 48, epoch / Pow2(27), 3);
      FieldHolds(s, 51, epoch, 27);
    } else {
      FieldHolds(s, 48, epoch, 30);
    }
  }

  lemma ZeroField(s: bits, pos: nat, n: nat)
    requires Holds(s, pos, ToBits(0, n))
    ensures pos + n <= |s| && Value(s[pos..pos + n]) == 0
  {
    FieldHolds(s, pos, 0, n);
    DivModRange(0, Pow2(n));
  }

  /** What the header's bits read as, whatever follows them. */
  lemma HeadReadsBack(s: bits, h: Head, ps: seq<Signal>, sys: System)
    requires Proper(ps) && Holds(s, 24, HeadBits(h, ps))
    ensures |s| >= 193 && CellsAt(s) == |CellMask(ps)| && Value(s[36..48]) == h.staid % Pow2(12)
    ensures 193 + |Written(CellMask(ps))| == 24 + |HeadBits(h, ps)| && Holds(s, 193, Written(CellMask(ps)))
    ensures ReadHeader(s, sys, CellMask(ps)) == HeaderOf(h, ps, sys)
  {
    hide FixedBits, Written, Pow2, Value, SatMask, SigMask, CellMask, CellCount, Ids, Ones;
    var w1 := FixedBits(h);
    HoldsBoth(s, 24, w1 + SatMask(ps) + SigMask(ps), Written(CellMask(ps)));
    HoldsBoth(s, 24, w1 + SatMask(ps), SigMask(ps));
    HoldsBoth(s, 24, w1, SatMask(ps));
    FixedHolds(s, h);
    FieldHolds(s, 36, h.staid, 12);
    EpochReadsBack(s, h.epoch, sys);
    FieldHolds(s, 78, h.sync, 1);
    FieldHolds(s, 79, h.seqno, 3);
    ZeroField(s, 82, 7);
    ZeroField(s, 89, 2);
    ZeroField(s, 91, 2);
    ZeroField(s, 93, 1);
    ZeroField(s, 94, 3);
  }

  /** The header bit by bit: the fields of the fixed part with zeros between them, and the masks. */
  lemma HeadOnTheWire(s: bits, h: Head, ps: seq<Signal>)
    requires Proper(ps) && Holds(s, 24, HeadBits(h, ps))
    ensures |s| >= 193
    ensures Value(s[24..36]) == h.messageType % 4096 && Value(s[36..48]) == h.staid % 4096
    ensures Value(s[48..78]) == h.epoch % 0x4000_0000
    ensures Value(s[78..79]) == h.sync % 2 && Value(s[79..82]) == h.seqno % 8 && Value(s[82..97]) == 0
    ensures s[97..161] == SatMask(ps) && s[161..193] == SigMask(ps)
    ensures var n := if |CellMask(ps)| < 64 then |CellMask(ps)| else 64;
            |s| >= 193 + n && s[193..193 + n] == CellMask(ps)[..n]
  {
    hide FixedBits, Pow2, Value, ToBits, SatMask, SigMask, CellMask;
    var w1 := FixedBits(h);
    HoldsBoth(s, 24, w1 + SatMask(ps) + SigMask(ps), Written(CellMask(ps)));
    HoldsBoth(s, 24, w1 + SatMask(ps), SigMask(ps));
    HoldsBoth(s, 24, w1, SatMask(ps));
    FixedOnTheWire(s, h);
  }

  lemma FixedOnTheWire(s: bits, h: Head)
    requires Holds(s, 24, FixedBits(h))
    ensures |s| >= 97
    ensures Value(s[24..36]) == h.messageType % 4096 && Value(s[36..48]) == h.staid % 4096
    ensures Value(s[48..78]) == h.epoch % 0x4000_0000
    ensures Value(s[78..79]) == h.sync % 2 && Value(s[79..82]) == h.seqno % 8 && Value(s[82..97]) == 0
  {
    hide FixedBits, Pow2, Value, ToBits, Holds;
    HoldsRoom(s, 24, FixedBits(h));
    FixedHolds(s, h);
    FieldHolds(s, 24, h.messageType, 12);
    FieldHolds(s, 36, h.staid, 12);
    FieldHolds(s, 48, h.epoch, 30);
    FieldHolds(s, 78, h.sync, 1);
    FieldHolds(s, 79, h.seqno, 3);
    SmallPowers();
    ZeroField(s, 82, 7);
    ZeroField(s, 89, 2);
    ZeroField(s, 91, 2);
    ZeroField(s, 93, 1);
    ZeroField(s, 94, 3);
    ZeroTogether(s, 82, 89, 91);
    ZeroTogether(s, 82, 91, 93);
    ZeroTogether(s, 82, 93, 94);
    ZeroTogether(s, 82, 94, 97);
  }

  lemma SmallPowers()
    ensures Pow2(1) == 2 && Pow2(3) == 8 && Pow2(12) == 4096 && Pow2(30) == 0x4000_0000
  {
    WordSizes();
    Pow2Add(24, 6);
    assert Pow2(3) == 8;
  }

  lemma ZeroTogether(s: bits, a: nat, b: nat, c: nat)
    requires a <= b <= c <= |s| && Value(s[a..b]) == 0 && Value(s[b..c]) == 0
    ensures Value(s[a..c]) == 0
  {
    hide Value;
    assert s[a..c] == s[a..b] + s[b..c];
    ValueConcat(s[a..b], s[b..c]);
  }

  /** The columns read back as written exactly when every number fits its field. */
  lemma {:induction false} BodyReadsBack(fmt: seq<Format>, s: bits, pos: nat, cols: seq<seq<int>>, nsat: nat,
                                         ncell: nat, n: nat)
    requires ValidFormats(fmt) && n <= |fmt| && Fitting(fmt, cols, nsat, ncell)
    requires Holds(s, pos, BodyBits(fmt, cols, n))
    ensures pos + BodyExtent(fmt, nsat, ncell, n) <= |s|
    ensures ReadBody(fmt, s, pos, nsat, ncell, n) == cols[..n] <==> ColumnsFit(fmt, cols, n)
  {
    hide Holds, ColumnBits, ReadColumn, Extent;
    BodyLength(fmt, cols, nsat, ncell, n);
    HoldsRoom(s, pos, BodyBits(fmt, cols, n));
    if n > 0 {
      var f, col := fmt[n - 1], cols[n - 1];
      HoldsBoth(s, pos, BodyBits(fmt, cols, n - 1), ColumnBits(f.width, f.setter, col));
      BodyLength(fmt, cols, nsat, ncell, n - 1);
      BodyReadsBack(fmt, s, pos, cols, nsat, ncell, n - 1);
      ColumnRoundTrip(s, pos + BodyExtent(fmt, nsat, ncell, n - 1), f.width, f.setter, f.signed, col);
      LastOf(ReadBody(fmt, s, pos, nsat, ncell, n), cols, n);
    }
  }

  lemma LastOf(a: seq<seq<int>>, cols: seq<seq<int>>, n: nat)
    requires 1 <= n == |a| <= |cols|
    ensures a == cols[..n] <==> a[..n - 1] == cols[..n - 1] && a[n - 1] == cols[n - 1]
  {
  }

  /** Every number of the first n columns is one its field can hold. */
  predicate ColumnsFit(fmt: seq<Format>, cols: seq<seq<int>>, n: nat)
    requires ValidFormats(fmt) && n <= |fmt| && |cols| == |fmt|
  {
    n == 0 || (ColumnsFit(fmt, cols, n - 1) && ColumnFits(cols[n - 1], fmt[n - 1].width, fmt[n - 1].signed))
  }

  /**
   A message encoded from any observations and columns decodes exactly when
   satellites times signals is at most 64.  Then the satellites, the signals
   and the row-major cell mask come back as they were, and the columns too,
   exactly when their numbers fit.
   */
  lemma MsmDecodes(fmt: seq<Format>, s: bits, nbits: nat, h: Head, ps: seq<Signal>, cols: seq<seq<int>>, sys: System,
                   f: Following)
    requires ValidFormats(fmt) && Proper(ps) && Fitting(fmt, cols, Ones(SatMask(ps)), Sent(CellMask(ps)))
    requires Holds(s, 24, HeadBits(h, ps) + BodyBits(fmt, cols, |fmt|))
    requires 24 + |HeadBits(h, ps) + BodyBits(fmt, cols, |fmt|)| <= nbits <= |s|
    requires StaidOk(f, h.staid % Pow2(12))
    ensures var m := ParseMsm(fmt, s, nbits, sys, f);
            && (m.Some? <==> |Ids(SatMask(ps))| * |Ids(SigMask(ps))| <= 64)
            && (m.Some? ==>
                  && m.value.head == HeaderOf(h, ps, sys)
                  && (m.value.cols == cols <==> ColumnsFit(fmt, cols, |fmt|)))
  {
    hide HeadBits, BodyBits, SatMask, SigMask, CellMask, Ones, ParseHead, HeaderOf, Holds, ParseMsm, ColumnsFit,
         ValidFormats;
    HoldsBoth(s, 24, HeadBits(h, ps), BodyBits(fmt, cols, |fmt|));
    HeadParses(s, nbits, h, ps, sys, f);
    if |CellMask(ps)| <= 64 {
      SentAll(CellMask(ps));
      HeaderShape(h, ps, sys);
      BodyParses(fmt, s, nbits, HeaderOf(h, ps, sys), cols, sys, f);
    } else {
      NoHead(fmt, s, nbits, sys, f);
    }
  }

  lemma NoHead(fmt: seq<Format>, s: bits, nbits: nat, sys: System, f: Following)
    requires ValidFormats(fmt) && nbits <= |s| && ParseHead(s, nbits, sys, f) == None
    ensures ParseMsm(fmt, s, nbits, sys, f) == None
  {
  }

  /** The columns behind a header that parses. */
  lemma BodyParses(fmt: seq<Format>, s: bits, nbits: nat, head: MsmHeader, cols: seq<seq<int>>, sys: System,
                   f: Following)
    requires ValidFormats(fmt) && nbits <= |s| && ParseHead(s, nbits, sys, f) == Some(head)
    requires Fitting(fmt, cols, |head.sats|, Ones(head.cellmask))
    requires Holds(s, 193 + |head.cellmask|, BodyBits(fmt, cols, |fmt|))
    requires 193 + |head.cellmask| + |BodyBits(fmt, cols, |fmt|)| <= nbits
    ensures var m := ParseMsm(fmt, s, nbits, sys, f);
            m.Some? && m.value.head == head && (m.value.cols == cols <==> ColumnsFit(fmt, cols, |fmt|))
  {
    hide BodyBits, BodyExtent, Ones, ParseHead, Holds, ReadBody, ColumnsFit;
    BodyLength(fmt, cols, |head.sats|, Ones(head.cellmask), |fmt|);
    BodyReadsBack(fmt, s, 193 + |head.cellmask|, cols, |head.sats|, Ones(head.cellmask), |fmt|);
    assert cols[..|fmt|] == cols;
  }

  lemma HeaderShape(h: Head, ps: seq<Signal>, sys: System)
    requires Proper(ps)
    ensures HeaderOf(h, ps, sys).cellmask == CellMask(ps) && |HeaderOf(h, ps, sys).sats| == Ones(SatMask(ps))
  {
  }

  /** The header alone. */
  lemma HeadParses(s: bits, nbits: nat, h: Head, ps: seq<Signal>, sys: System, f: Following)
    requires Proper(ps) && Holds(s, 24, HeadBits(h, ps)) && 24 + |HeadBits(h, ps)| <= nbits <= |s|
    requires StaidOk(f, h.staid % Pow2(12))
    ensures |CellMask(ps)| == |Ids(SatMask(ps))| * |Ids(SigMask(ps))|
    ensures ParseHead(s, nbits, sys, f) == if |CellMask(ps)| <= 64 then Some(HeaderOf(h, ps, sys)) else None
    ensures |CellMask(ps)| <= 64 ==> 24 + |HeadBits(h, ps)| == 193 + |CellMask(ps)|
  {
    CellsOf(ps);
    SentAll(CellMask(ps));
    HeadReadsBack(s, h, ps, sys);
    hide HeadBits, SatMask, SigMask, CellMask, Ids, Ones, Pow2, Value, ReadHeader, CellsAt, CellCount;
    if |CellMask(ps)| <= 64 {
      HoldsSlice(s, 193, CellMask(ps));
    }
  }

  lemma CellsOf(ps: seq<Signal>)
    requires Proper(ps)
    ensures |CellMask(ps)| == |Ids(SatMask(ps))| * |Ids(SigMask(ps))| && |Ids(SatMask(ps))| == Ones(SatMask(ps))
  {
  }

  lemma SentAll(cells: bits)
    ensures |cells| <= 64 ==> Sent(cells) == Ones(cells) && Written(cells) == cells
  {
  }

  lemma HoldsSlice(s: bits, pos: nat, f: bits)
    requires Holds(s, pos, f)
    ensures pos + |f| <= |s| && s[pos..pos + |f|] == f
  {
  }

  /** The lists that come back are those of the satellites and signals observed, in ascending order. */
  lemma ListsAreObserved(ps: seq<Signal>, id: nat)
    requires Proper(ps)
    ensures id in Ids(SatMask(ps)) <==> SatSeen(ps, id)
    ensures id in Ids(SigMask(ps)) <==> SigSeen(ps, id)
    ensures forall a, b :: 0 <= a < b < |Ids(SatMask(ps))| ==> Ids(SatMask(ps))[a] < Ids(SatMask(ps))[b]
    ensures forall a, b :: 0 <= a < b < |Ids(SigMask(ps))| ==> Ids(SigMask(ps))[a] < Ids(SigMask(ps))[b]
  {
    hide SatMask, SigMask, Ids;
    ListIsMask(SatMask(ps), id);
    ListIsMask(SigMask(ps), id);
  }

  lemma ListIsMask(m: bits, id: nat)
    ensures id in Ids(m) <==> 1 <= id <= |m| && m[id - 1]
    ensures forall a, b :: 0 <= a < b < |Ids(m)| ==> Ids(m)[a] < Ids(m)[b]
  {
    if 1 <= id <= |m| {
      IdsAreTheSetBits(m, id - 1);
    } else if id in Ids(m) {
      var r :| 0 <= r < |Ids(m)| && Ids(m)[r] == id;
      IdIsSet(m, |m|, r);
    }
    forall a, b | 0 <= a < b < |Ids(m)|
      ensures Ids(m)[a] < Ids(m)[b]
    {
      IdsAscend(m, a, b);
    }
  }
}
