/**
 The three framers on the same stream.  On any interleaving of valid frames
 of non-zero type with bytes that are no preamble and with damaged frames that
 have no second preamble, RTKLIB and BNC deliver exactly the frames; the Go
 handler does too unless one of them makes it panic.
 */
module FramersAgree {
  import opened Bits
  import opened Crc24q
  import opened Frames
  import opened GoFramer
  import opened GoStream
  import opened RtklibFramer
  import Bnc = BncFramer
  import BncStream

  lemma GoodTail(ps: seq<Piece>)
    requires ps != [] && GoodPieces(ps)
    ensures GoodPiece(ps[0]) && GoodPieces(ps[1..])
  {
  }

  // ---------------------------------------------------------------- RTKLIB

  /** To RTKLIB frames may be of any type and have reserved bits set, and damaged frames may hold anything. */
  ghost predicate RtklibPiece(p: Piece) {
    match p
    case Frame(f) => IsFrame(f)
    case Junk(j) => PREAMBLE !in j
    case Damaged(f) => IsDamaged(f)
    case BadStart(_) => false
  }

  lemma {:induction false} RtklibDeliversFrames(ps: seq<Piece>)
    requires forall p :: p in ps ==> RtklibPiece(p)
    ensures RunFrom([], Stream(ps)) == RtkRun([], FramesOf(ps))
  {
    if ps != [] {
      assert ps[0] in ps && forall p :: p in ps[1..] ==> p in ps;
      RunConcat([], ps[0].bytes, Stream(ps[1..]));
      RtklibDeliversFrames(ps[1..]);
      match ps[0]
      case Frame(f) => FrameDelivered(f);
      case Junk(j) => JunkIgnored(j);
      case Damaged(f) => DamagedDropped(f, []);
    }
  }

  // ------------------------------------------------------------------- BNC

  lemma {:induction false} BncDropsJunk(j: seq<byte>, rest: seq<byte>)
    requires PREAMBLE !in j
    ensures Bnc.FramesIn(j + rest) == Bnc.FramesIn(rest)
    ensures Bnc.Benign(rest) ==> Bnc.Benign(j + rest)
  {
    if j == [] {
      assert j + rest == rest;
    } else {
      assert j[0] in j;
      assert (j + rest)[1..] == j[1..] + rest;
      BncDropsJunk(j[1..], rest);
      ShortIsDone(j + rest);
      ShortIsDone(j[1..] + rest);
      hide HeaderLength;
    }
  }

  lemma ShortIsDone(s: seq<byte>)
    ensures |s| < 3 ==> Bnc.FramesIn(s) == [] && Bnc.Benign(s)
  {
  }

  lemma BncTakesFrame(f: seq<byte>, rest: seq<byte>)
    requires ValidFrame(f) && MessageType(f) != 0
    ensures Bnc.FramesIn(f + rest) == [f] + Bnc.FramesIn(rest)
    ensures Bnc.Benign(rest) ==> Bnc.Benign(f + rest)
  {
    BncStream.FrameIsTaken(f, rest);
    assert (f + rest)[..|f|] == f && (f + rest)[|f|..] == rest;
    assert HeaderLength(f + rest) == HeaderLength(f);
    hide Bnc.LookAt, HeaderLength, MessageType;
  }

  /** BNC drops the preamble of a damaged frame, and then the rest of it byte by byte. */
  lemma BncDropsDamaged(f: seq<byte>, rest: seq<byte>)
    requires IsDamaged(f) && HeaderLength(f) >= 1 && PREAMBLE !in f[1..]
    ensures Bnc.FramesIn(f + rest) == Bnc.FramesIn(rest)
    ensures Bnc.Benign(rest) ==> Bnc.Benign(f + rest)
  {
    hide Bnc.FramesIn, Bnc.Benign, Bnc.ZeroHeader, Bnc.LookAt, ParityOk;
    assert (f + rest)[1..] == f[1..] + rest;
    DamagedLooks(f, rest);
    DropStep(f + rest);
    BncDropsJunk(f[1..], rest);
  }

  lemma DamagedLooks(f: seq<byte>, rest: seq<byte>)
    requires IsDamaged(f) && HeaderLength(f) >= 1
    ensures Bnc.LookAt(f + rest).Drop? && !Bnc.ZeroHeader(f + rest)
  {
    assert (f + rest)[..|f|] == f && HeaderLength(f + rest) == HeaderLength(f);
  }

  lemma DropStep(s: seq<byte>)
    requires Bnc.LookAt(s).Drop? && !Bnc.ZeroHeader(s)
    ensures s != [] && Bnc.FramesIn(s) == Bnc.FramesIn(s[1..]) && (Bnc.Benign(s) <==> Bnc.Benign(s[1..]))
  {
    Bnc.LookBounds(s);
  }

  lemma {:induction false} BncScansFrames(ps: seq<Piece>)
    requires GoodPieces(ps)
    ensures Bnc.Benign(Stream(ps)) && Bnc.FramesIn(Stream(ps)) == FramesOf(ps)
  {
    if ps != [] {
      GoodTail(ps);
      BncScansFrames(ps[1..]);
      hide Bnc.Benign, Bnc.FramesIn, ValidFrame, IsDamaged, MessageType;
      match ps[0]
      case Frame(f) => BncTakesFrame(f, Stream(ps[1..]));
      case Junk(j) => BncDropsJunk(j, Stream(ps[1..]));
      case Damaged(f) => BncDropsDamaged(f, Stream(ps[1..]));
    } else {
      ShortIsDone([]);
    }
  }

  // -------------------------------------------------------------------- Go

  /** The frames among the handler's messages. */
  function GoFrames(s: seq<byte>): seq<seq<byte>> {
    RtcmOnly(RunOf(s).messages)
  }

  lemma RtcmOnlyCons(m: Message, ms: seq<Message>)
    ensures RtcmOnly([m] + ms) == (if m.messageType == NON_RTCM then [] else [m.rawData]) + RtcmOnly(ms)
  {
  }

  lemma {:induction false} GoSkipsJunk(j: seq<byte>, rest: seq<byte>)
    requires PREAMBLE !in j
    ensures GoFrames(j + rest) == GoFrames(rest)
    ensures RunOf(j + rest).rest == [] <==> RunOf(rest).rest == []
  {
    hide RunOf, GoFrames;
    if j == [] {
      assert j + rest == rest;
    } else {
      var n := JunkLength(rest);
      JunkLengthConcat(j, rest);
      assert (j + rest)[0] == j[0] && j[0] in j;
      assert (j + rest)[|j| + n..] == rest[n..];
      GoSkipsPrefix(j + rest);
      if rest == [] || rest[0] == PREAMBLE {
        assert rest[n..] == rest;
      } else {
        GoSkipsPrefix(rest);
      }
    }
  }

  /** The first junk of a stream is one message, and none of the frames. */
  lemma GoSkipsPrefix(s: seq<byte>)
    requires s != [] && s[0] != PREAMBLE
    ensures GoFrames(s) == GoFrames(s[JunkLength(s)..])
    ensures RunOf(s).rest == [] <==> RunOf(s[JunkLength(s)..]).rest == []
  {
    JunkSegment(s);
    RunStep(s);
    RtcmOnlyCons(NextMessage(s).message, RunOf(s[JunkLength(s)..]).messages);
  }

  lemma {:induction false} JunkLengthConcat(j: seq<byte>, rest: seq<byte>)
    requires PREAMBLE !in j
    ensures JunkLength(j + rest) == |j| + JunkLength(rest)
  {
    if j == [] {
      assert j + rest == rest;
    } else {
      assert j[0] in j && (j + rest)[1..] == j[1..] + rest;
      JunkLengthConcat(j[1..], rest);
    }
  }

  lemma GoTakesFrame(f: seq<byte>, rest: seq<byte>)
    requires ValidFrame(f)
    ensures if ShortMsm(f) then GoFrames(f + rest) == [] && RunOf(f + rest).rest != []
            else GoFrames(f + rest) == [f] + GoFrames(rest) && (RunOf(f + rest).rest == [] <==> RunOf(rest).rest == [])
  {
    var s := f + rest;
    FrameIsSegment(f, rest);
    NextIsSegment(s);
    RunStep(s);
    ShortMsmPanics(s, f);
    hide NextMessage, SegmentLength, ShortMsm, ValidFrame;
    if NextMessage(s).Got? {
      RtcmOnlyCons(NextMessage(s).message, RunOf(rest).messages);
    }
  }

  lemma GoSkipsDamaged(f: seq<byte>, rest: seq<byte>)
    requires IsDamaged(f) && ReservedZero(f) && HeaderLength(f) >= 1
    ensures GoFrames(f + rest) == GoFrames(rest)
    ensures RunOf(f + rest).rest == [] <==> RunOf(rest).rest == []
  {
    var s := f + rest;
    WholeIsSegment(f, rest);
    NextIsSegment(s);
    RunStep(s);
    hide NextMessage, SegmentLength, ParityOk;
    RtcmOnlyCons(NextMessage(s).message, RunOf(rest).messages);
  }

  lemma ShortMsmPanics(s: seq<byte>, f: seq<byte>)
    requires s != [] && s[..SegmentLength(s)] == f && ValidFrame(f)
    ensures ShortMsm(f) <==> NextMessage(s).Panic?
  {
  }

  lemma {:induction false} GoDeliversFrames(ps: seq<Piece>)
    requires GoodPieces(ps)
    ensures GoFrames(Stream(ps)) == FramesOf(ps) <==> NoShortMsm(FramesOf(ps))
    ensures RunOf(Stream(ps)).rest == [] <==> NoShortMsm(FramesOf(ps))
  {
    if ps != [] {
      GoodTail(ps);
      GoDeliversFrames(ps[1..]);
      hide RunOf, GoFrames, ShortMsm, ValidFrame;
      match ps[0]
      case Frame(f) =>
        GoTakesFrame(f, Stream(ps[1..]));
        assert FramesOf(ps)[1..] == FramesOf(ps[1..]);
      case Junk(j) =>
        GoSkipsJunk(j, Stream(ps[1..]));
        assert FramesOf(ps) == FramesOf(ps[1..]);
      case Damaged(f) =>
        GoSkipsDamaged(f, Stream(ps[1..]));
        assert FramesOf(ps) == FramesOf(ps[1..]);
    }
  }

  predicate NoShortMsm(fs: seq<seq<byte>>) {
    fs == [] || (!ShortMsm(fs[0]) && NoShortMsm(fs[1..]))
  }

  // ------------------------------------------------------------- agreement

  /**
   One stream, three framers: RTKLIB fed byte by byte from idle, BNC fed any
   chunks that make up the stream, and the Go handler.  RTKLIB and BNC deliver
   the frames; the Go handler delivers the same exactly when none of them is an
   MSM too short to hold its timestamp.
   */
  lemma FramersAgree(ps: seq<Piece>, bnc: Bnc.Decoder, chunks: seq<seq<byte>>)
    requires GoodPieces(ps) && BncStream.Fresh(bnc) && Flatten(chunks) == Stream(ps)
    ensures RunFrom([], Stream(ps)).messages == FramesOf(ps)
    ensures var r := BncStream.DecodeAll(bnc, chunks);
            !r.spins && r.left == [] && BncStream.BytesOf(r.blocks) == FramesOf(ps)
    ensures GoFrames(Stream(ps)) == FramesOf(ps) <==> NoShortMsm(FramesOf(ps))
  {
    RtklibDeliversFrames(ps);
    BncScansFrames(ps);
    GoDeliversFrames(ps);
    hide RunFrom, BncStream.DecodeAll, BncStream.BlocksIn, Bnc.FramesIn, RunOf, GoFrames;
    assert Bnc.LookAt(Bnc.Pending(bnc)).Stop? && Bnc.Pending(bnc) + Flatten(chunks) == Stream(ps);
    BncStream.ChunkIndependence(bnc, chunks);
    BncStream.BlocksHoldFrames(Stream(ps));
  }
}
