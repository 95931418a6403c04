/**
 Two messages that RTKLIB encodes and that are then lost: one with more cells
 than its cell mask has room for, which no decoder accepts, and one for SBAS,
 which RTKLIB decodes and BNC does not.
 */
module MsmLost {
  import opened Bits
  import opened Frames
  import opened MsmMasks
  import opened MsmIndex
  import opened MsmEncode
  import opened MsmDecode
  import opened Layout
  import opened GenRtcm3
  import MsmRoundTrip
  import MsmBnc
  import MsmToBnc

  /** Satellites 1 to a, each observed on signals 1 to b. */
  function Grid(a: nat, b: nat): (obs: seq<Obs>)
    ensures |obs| == a
  {
    seq(a, i requires 0 <= i < a => Obs(i + 1, seq(b, j requires 0 <= j < b => j + 1)))
  }

  lemma {:induction false} RowSeen(o: Obs, n: nat)
    requires n <= |o.sigs| && o.sat != 0 && forall j :: 0 <= j < |o.sigs| ==> o.sigs[j] == j + 1
    ensures forall k: nat :: SatSeen(RowSignals(o, n), k) <==> n >= 1 && k == o.sat
    ensures forall k: nat :: SigSeen(RowSignals(o, n), k) <==> 1 <= k <= n
  {
    hide SatSeen, SigSeen;
    if n > 0 {
      RowSeen(o, n - 1);
      SeenMore(RowSignals(o, n - 1), Signal(o.sat, n));
    } else {
      NoneSeen();
    }
  }

  lemma NoneSeen()
    ensures forall k: nat :: !SatSeen([], k) && !SigSeen([], k)
  {
  }

  lemma {:induction false} SeenBoth(ps: seq<Signal>, qs: seq<Signal>)
    ensures forall k: nat :: SatSeen(ps + qs, k) <==> SatSeen(ps, k) || SatSeen(qs, k)
    ensures forall k: nat :: SigSeen(ps + qs, k) <==> SigSeen(ps, k) || SigSeen(qs, k)
    decreases |qs|
  {
    hide SatSeen, SigSeen;
    if qs == [] {
      assert ps + qs == ps;
      NoneSeen();
    } else {
      var init, last := qs[..|qs| - 1], qs[|qs| - 1];
      assert ps + qs == (ps + init) + [last] && qs == init + [last];
      SeenBoth(ps, init);
      SeenMore(ps + init, last);
      SeenMore(init, last);
    }
  }

  lemma {:induction false} GridSeen(a: nat, b: nat, n: nat)
    requires n <= a && b >= 1
    ensures forall k: nat :: SatSeen(SignalsOf(Grid(a, b), n), k) <==> 1 <= k <= n
    ensures forall k: nat :: SigSeen(SignalsOf(Grid(a, b), n), k) <==> n >= 1 && 1 <= k <= b
  {
    hide SatSeen, SigSeen;
    if n > 0 {
      GridSeen(a, b, n - 1);
      RowSeen(Grid(a, b)[n - 1], b);
      SeenBoth(SignalsOf(Grid(a, b), n - 1), RowSignals(Grid(a, b)[n - 1], b));
    } else {
      NoneSeen();
    }
  }

  lemma {:induction false} CountFirst(m: bits, a: nat, n: nat)
    requires n <= |m| && forall k :: 0 <= k < |m| ==> (m[k] <==> k < a)
    ensures Count(m, n) == if n < a then n else a
  {
    if n > 0 {
      CountFirst(m, a, n - 1);
    }
  }

  lemma GridCounts(a: nat, b: nat)
    requires 1 <= a <= 64 && 1 <= b <= 32
    ensures var ps := SignalsOf(Grid(a, b), a);
            Proper(ps) && Ones(SatMask(ps)) == a && Ones(SigMask(ps)) == b && |CellMask(ps)| == a * b
  {
    var ps := SignalsOf(Grid(a, b), a);
    SignalsAreProper(Grid(a, b), a);
    GridSeen(a, b, a);
    hide SatSeen, SigSeen;
    CountFirst(SatMask(ps), a, 64);
    CountFirst(SigMask(ps), b, 32);
  }

  /** Columns of zeros. */
  function ZeroColumns(fmt: seq<Format>, nsat: nat, ncell: nat): seq<seq<int>> {
    seq(|fmt|, k requires 0 <= k < |fmt| => seq(Entries(fmt[k], nsat, ncell), _ => 0))
  }

  /** An MSM4 of the grid, all its numbers 0. */
  ghost function GridMessage(sys: System, a: nat, b: nat): (m: Outgoing)
    requires 1 <= a <= 64 && 1 <= b <= 32
    ensures !m.Arp?
  {
    GridCounts(a, b);
    var ps := SignalsOf(Grid(a, b), a);
    Msm4(sys, Head(MessageNumber(sys, 4), 0, 0, 0, 0), Grid(a, b),
         ZeroColumns(MSM4, Ones(SatMask(ps)), Sent(CellMask(ps))))
  }

  lemma GridIsEncodable(sys: System, a: nat, b: nat)
    requires 1 <= a <= 64 && 1 <= b <= 32
    ensures Encodable(GridMessage(sys, a, b))
  {
    hide SatMask, SigMask, CellMask, Ones;
    GridCounts(a, b);
  }

  /** Nine satellites with eight signals each are 72 cells: the message is encoded and framed, and does not decode. */
  lemma SeventyTwoCellsAreLost()
    ensures var m := GridMessage(GPS, 9, 8);
            && Encodable(m) && |Ids(SatMask(SignalsIn(m)))| * |Ids(SigMask(SignalsIn(m)))| == 72
            && exists f :: FrameOf(f, MessageBits(m)) && RtklibReads(f, m) == None
  {
    hide SatMask, SigMask, CellMask, Ones, ParseMsm, MessageBits, FrameOf;
    var m := GridMessage(GPS, 9, 8);
    GridCounts(9, 8);
    GridIsEncodable(GPS, 9, 8);
    FrameExists(m);
    var f :| FrameOf(f, MessageBits(m));
    MsmArrives(f, m, ANY_STATION);
  }

  ghost function RtklibReads(f: seq<byte>, m: Outgoing): Option<MsmMessage>
    requires !m.Arp? && Encodable(m) && FrameOf(f, MessageBits(m))
  {
    ParseMsm(Formats(m), BitsOf(f), 8 * (|f| - 3), m.sys, ANY_STATION)
  }

  /** One satellite with one signal, for SBAS: RTKLIB decodes the frame, and BNC rejects it. */
  lemma SbasIsLost()
    ensures var m := GridMessage(SBS, 1, 1);
            && Encodable(m)
            && exists f ::
                 && FrameOf(f, MessageBits(m)) && RtklibReads(f, m).Some?
                 && MsmBnc.OutcomeOf(BitsOf(f[3..|f| - 3])) == MsmBnc.Rejected
  {
    hide SatMask, SigMask, CellMask, Ones, ParseMsm, MessageBits, FrameOf, MsmBnc.OutcomeOf;
    var m := GridMessage(SBS, 1, 1);
    GridCounts(1, 1);
    GridIsEncodable(SBS, 1, 1);
    FrameExists(m);
    var f :| FrameOf(f, MessageBits(m));
    MsmArrives(f, m, ANY_STATION);
    MsmToBnc.MsmReachesBnc(f, m);
  }
}
