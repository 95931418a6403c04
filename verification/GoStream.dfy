/**
 Whole runs of the Go handler: HandleMessages over a closed input, and the
 filter of apps/rtcmfilter/main.go over what it emits.
 */
module GoStream {
  import opened Bits
  import opened Crc24q
  import opened Frames
  import opened GoFramer

  /** The messages sent before the input ends; rest is what is left if the handler panics. */
  datatype Run = Run(messages: seq<Message>, rest: seq<byte>)

  function RunOf(s: seq<byte>): Run
    decreases |s|
  {
    if s == [] then Run([], [])
    else
      match NextMessage(s)
      case Got(m) => RunOf(s[SegmentLength(s)..]).(messages := [m] + RunOf(s[SegmentLength(s)..]).messages)
      case _ => Run([], s)
  }

  lemma RunStep(s: seq<byte>)
    ensures NextMessage(s).NoMessage? ==> s == [] && RunOf(s) == Run([], [])
    ensures NextMessage(s).Panic? ==> RunOf(s) == Run([], s) && s != []
    ensures NextMessage(s).Got? ==>
      var tail := s[SegmentLength(s)..];
      RunOf(s) == Run([NextMessage(s).message] + RunOf(tail).messages, RunOf(tail).rest)
  {
  }

  method HandleMessages(chIn: seq<byte>) returns (chOut: seq<Message>, panicked: bool)
    ensures chOut == RunOf(chIn).messages
    ensures panicked <==> RunOf(chIn).rest != []
  {
    hide RunOf, NextMessage, SegmentLength;
    var pb := new ByteChannel(chIn);
    assert pb.Contents() == chIn;
    chOut := [];
    while true
      invariant |pb.pushBackBuffer| <= 1
      invariant RunOf(chIn).messages == chOut + RunOf(pb.Contents()).messages
      invariant RunOf(chIn).rest == RunOf(pb.Contents()).rest
      decreases |pb.Contents()|
    {
      ghost var s := pb.Contents();
      RunStep(s);
      var r := FetchNextMessageFrame(pb);
      match r
      case NoMessage => return chOut, false;
      case Panic => return chOut, true;
      case Got(m) => chOut := chOut + [m];
    }
  }

  // ------------------------------------------------------------- one segment

  /** The message type a segment gets: that of the frame it is, or -1. */
  function TypeOf(seg: seq<byte>): int {
    if ValidFrame(seg) then MessageType(seg) else NON_RTCM
  }

  /** The fetch takes a whole segment off the stream and types it right, or it is a short MSM and panics. */
  lemma NextIsSegment(s: seq<byte>)
    requires s != []
    ensures var seg := s[..SegmentLength(s)];
            match NextMessage(s)
            case NoMessage => false
            case Panic => ShortMsm(seg)
            case Got(m) => !ShortMsm(seg) && m.rawData == seg && m.messageType == TypeOf(seg)
  {
    var seg := s[..SegmentLength(s)];
    if HeaderOk(seg) && |seg| == HeaderLength(seg) + 6 {
      assert seg[..|seg|] == seg;
    }
  }

  // ------------------------------------------------------------- conservation

  /** The stream cut into the handler's segments. */
  function Segments(s: seq<byte>): seq<seq<byte>>
    decreases |s|
  {
    if s == [] then [] else [s[..SegmentLength(s)]] + Segments(s[SegmentLength(s)..])
  }

  function RawData(ms: seq<Message>): (r: seq<seq<byte>>)
    ensures |r| == |ms|
  {
    seq(|ms|, i requires 0 <= i < |ms| => ms[i].rawData)
  }

  lemma RawDataCons(m: Message, ms: seq<Message>)
    ensures RawData([m] + ms) == [m.rawData] + RawData(ms)
  {
  }

  lemma FlattenCons(a: seq<byte>, ss: seq<seq<byte>>, rest: seq<byte>)
    ensures Flatten([a] + ss) + rest == a + (Flatten(ss) + rest)
  {
  }

  /** However corrupt the input, no byte is lost, added or reordered. */
  lemma {:induction false} Conservation(s: seq<byte>)
    ensures Flatten(RawData(RunOf(s).messages)) + RunOf(s).rest == s
    decreases |s|
  {
    if s != [] {
      RunStep(s);
      NextIsSegment(s);
      if NextMessage(s).Got? {
        var m, tail := NextMessage(s).message, s[SegmentLength(s)..];
        Conservation(tail);
        RawDataCons(m, RunOf(tail).messages);
        FlattenCons(m.rawData, RawData(RunOf(tail).messages), RunOf(tail).rest);
        assert s == s[..SegmentLength(s)] + tail;
      }
    }
  }

  /**
   The handler panics exactly on inputs one of whose segments is a valid MSM
   frame too short to hold a timestamp; on every other input the messages are
   the segments, in order.
   */
  lemma {:induction false} PanicsExactlyOnShortMsm(s: seq<byte>)
    ensures RunOf(s).rest == [] <==> forall seg :: seg in Segments(s) ==> !ShortMsm(seg)
    ensures RunOf(s).rest == [] ==> RawData(RunOf(s).messages) == Segments(s)
    ensures RunOf(s).rest != [] ==> ShortMsm(RunOf(s).rest[..SegmentLength(RunOf(s).rest)])
    decreases |s|
  {
    if s != [] {
      NextIsSegment(s);
      var n := SegmentLength(s);
      if NextMessage(s).Got? {
        PanicsExactlyOnShortMsm(s[n..]);
        RawDataCons(NextMessage(s).message, RunOf(s[n..]).messages);
      }
    }
  }

  /** Such frames exist: an MSM4 (type 1074) of two bytes with the right parity. */
  lemma ShortMsmExists()
    ensures ShortMsm([0xD3, 0x00, 0x02, 0x43, 0x20, 0xD6, 0x9E, 0xCC])
  {
    var f: seq<byte> := [0xD3, 0x00, 0x02, 0x43, 0x20, 0xD6, 0x9E, 0xCC];
    CrcOfFive(0xD3, 0x00, 0x02, 0x43, 0x20);
    assert ByteStep(ByteStep(ByteStep(ByteStep(ByteStep(0, 0xD3), 0x00), 0x02), 0x43), 0x20) == 0xD69ECC;
    assert f[..|f| - 3] == [0xD3, 0x00, 0x02, 0x43, 0x20];
    GoParityTest(f, 0xD69ECC);
  }

  /**
   The message says what its bytes are: a frame with the preamble, zero reserved
   bits, the right length and the right parity, and then its type and, for an
   MSM4 or MSM7, its timestamp; or else nothing but bytes.
   */
  ghost predicate SaysWhatItIs(m: Message) {
    var f, s := m.rawData, BitsOf(m.rawData);
    if |f| >= 7 && f[0] == 0xD3 && Value(s[14..24]) + 6 == |f| && ChecksPass(f) then
      && m.messageType == Value(s[24..36])
      && (if MsmNumber(m.messageType) then |f| >= 10 && m.timestamp == Value(s[48..78]) else m.timestamp == 0)
    else m.messageType == -1 && m.timestamp == 0
  }

  /** So does every message that is sent, and none is empty. */
  lemma {:induction false} MessagesAreClassified(s: seq<byte>, k: nat)
    requires k < |RunOf(s).messages|
    ensures var m := RunOf(s).messages[k];
            m.rawData != [] && SaysWhatItIs(m) && m.messageType == TypeOf(m.rawData) && !ShortMsm(m.rawData)
    decreases |s|
  {
    hide SaysWhatItIs, TypeOf, ShortMsm, NextMessage;
    NextIsSegment(s);
    if k > 0 {
      MessagesAreClassified(s[SegmentLength(s)..], k - 1);
    } else {
      NextSaysWhatItIs(s);
    }
  }

  lemma NextSaysWhatItIs(s: seq<byte>)
    requires NextMessage(s).Got?
    ensures SaysWhatItIs(NextMessage(s).message)
  {
    hide Feed, BitsOf, Value, ParityOk, HeaderLength, ReservedZero, MessageType, SegmentLength, IsMsm;
    var seg := s[..SegmentLength(s)];
    if |seg| >= 5 {
      HeaderAsBits(seg);
      TypeAsBits(seg);
      ParityIsEmptyRegister(seg);
      MsmNumbers(MessageType(seg));
      assert seg[..|seg|] == seg;
    }
  }

  /** The frames on which it panics, in the terms of their bits: an MSM4 or MSM7 of one to three bytes. */
  lemma ShortMsmIs(f: seq<byte>)
    ensures ShortMsm(f) <==>
            && 7 <= |f| <= 9 && f[0] == 0xD3 && Value(BitsOf(f)[14..24]) + 6 == |f| && ChecksPass(f)
            && MsmNumber(Value(BitsOf(f)[24..36]))
  {
    hide Feed, BitsOf, Value, ParityOk, HeaderLength, ReservedZero, MessageType, IsMsm;
    if |f| >= 5 {
      HeaderAsBits(f);
      TypeAsBits(f);
      ParityIsEmptyRegister(f);
      MsmNumbers(MessageType(f));
    }
  }

  // ------------------------------------------------------- exact segmentation

  /** A frame at the head of a stream, damaged or not, is the next segment, whatever follows it. */
  lemma WholeIsSegment(f: seq<byte>, rest: seq<byte>)
    requires IsWhole(f) && ReservedZero(f) && HeaderLength(f) >= 1
    ensures SegmentLength(f + rest) == |f| && (f + rest)[..|f|] == f && (f + rest)[|f|..] == rest
  {
  }

  lemma FrameIsSegment(f: seq<byte>, rest: seq<byte>)
    requires ValidFrame(f)
    ensures SegmentLength(f + rest) == |f| && (f + rest)[..|f|] == f && (f + rest)[|f|..] == rest
  {
    WholeIsSegment(f, rest);
  }

  /** A run of other bytes up to a preamble, or to the end of the stream, is the next segment. */
  lemma {:induction false} JunkIsSegment(j: seq<byte>, rest: seq<byte>)
    requires j != [] && PREAMBLE !in j && (rest == [] || rest[0] == PREAMBLE)
    ensures SegmentLength(j + rest) == |j| && (j + rest)[..|j|] == j && (j + rest)[|j|..] == rest
  {
    JunkLengthOf(j, rest);
    assert (j + rest)[0] in j;
  }

  lemma {:induction false} JunkLengthOf(j: seq<byte>, rest: seq<byte>)
    requires PREAMBLE !in j && (rest == [] || rest[0] == PREAMBLE)
    ensures JunkLength(j + rest) == |j|
  {
    if j == [] {
      assert j + rest == rest;
    } else {
      assert (j + rest)[0] == j[0] && j[0] in j;
      assert (j + rest)[1..] == j[1..] + rest;
      JunkLengthOf(j[1..], rest);
    }
  }

  /** A stream that ends inside a frame, or before a frame can be told from something else. */
  predicate Unfinished(t: seq<byte>) {
    t == [] ||
    (t[0] == PREAMBLE && (|t| < 5 || (ReservedZero(t) && HeaderLength(t) >= 1 && |t| < HeaderLength(t) + 6)))
  }

  /** In particular a truncated frame: a proper prefix of a valid one. */
  lemma TruncatedIsUnfinished(t: seq<byte>, f: seq<byte>)
    requires ValidFrame(f) && t < f
    ensures Unfinished(t)
  {
  }

  lemma UnfinishedIsSegment(t: seq<byte>)
    requires Unfinished(t) && t != []
    ensures SegmentLength(t) == |t| && t[..|t|] == t && TypeOf(t) == NON_RTCM && !ShortMsm(t)
  {
  }

  /** What the pieces that the handler cuts a stream into look like. */
  predicate GoPiece(p: Piece) {
    match p
    case Frame(f) => ValidFrame(f)
    case Junk(j) => j != [] && PREAMBLE !in j
    case Damaged(f) => IsDamaged(f) && ReservedZero(f) && HeaderLength(f) >= 1
    case BadStart(b) => |b| == 5 && b[0] == PREAMBLE && (!ReservedZero(b) || HeaderLength(b) == 0)
  }

  /** The pieces of a stream: no two runs of junk touch. */
  predicate WellFormed(ps: seq<Piece>) {
    && (forall p :: p in ps ==> GoPiece(p))
    && forall i :: 0 <= i < |ps| - 1 ==> !(ps[i].Junk? && ps[i + 1].Junk?)
  }

  function PieceType(p: Piece): int {
    if p.Frame? then TypeOf(p.bytes) else NON_RTCM
  }

  /** A piece, then a stream that does not begin with more junk: the piece is the next segment. */
  lemma PieceIsSegment(p: Piece, rest: seq<byte>)
    requires GoPiece(p) && (p.Junk? ==> rest == [] || rest[0] == PREAMBLE)
    ensures p.bytes != [] && SegmentLength(p.bytes + rest) == |p.bytes|
    ensures (p.bytes + rest)[..|p.bytes|] == p.bytes && (p.bytes + rest)[|p.bytes|..] == rest
    ensures TypeOf(p.bytes) == PieceType(p) && (ShortMsm(p.bytes) ==> p.Frame?)
  {
    match p
    case Frame(f) => FrameIsSegment(f, rest);
    case Junk(j) =>
      JunkIsSegment(j, rest);
      assert j[0] in j;
    case Damaged(f) => WholeIsSegment(f, rest);
    case BadStart(b) =>
  }

  /**
   A stream built from pieces, perhaps ending in something unfinished, comes
   out as exactly those pieces in order, frames with their own type and
   everything else as type -1.  Only a short MSM makes the handler panic.
   */
  lemma {:induction false} ExactSegmentation(ps: seq<Piece>, tail: seq<byte>)
    requires WellFormed(ps) && Unfinished(tail) && forall p :: p in ps ==> !ShortMsm(p.bytes)
    ensures var r := RunOf(Stream(ps) + tail);
            && r.rest == []
            && |r.messages| == |ps| + (if tail == [] then 0 else 1)
            && (forall i :: 0 <= i < |ps| ==>
                  r.messages[i].rawData == ps[i].bytes && r.messages[i].messageType == PieceType(ps[i]))
            && (tail != [] ==> r.messages[|ps|] == NonRtcm(tail))
    decreases |ps|
  {
    hide NextMessage, SegmentLength, TypeOf, ValidFrame, ShortMsm, IsDamaged, GoPiece, Unfinished, RunOf, WellFormed;
    var s := Stream(ps) + tail;
    if ps == [] {
      assert s == tail;
      TailSegment(tail);
    } else {
      var p, rest := ps[0], Stream(ps[1..]) + tail;
      assert s == p.bytes + rest;
      WellFormedTail(ps);
      if p.Junk? {
        StreamStart(ps, tail);
      }
      FirstIsGood(ps);
      PieceIsSegment(p, rest);
      NextIsSegment(s);
      RunStep(s);
      ExactSegmentation(ps[1..], tail);
      var ms := RunOf(rest).messages;
      assert RunOf(s).messages == [NextMessage(s).message] + ms;
      forall i | 0 <= i < |ps|
        ensures RunOf(s).messages[i].rawData == ps[i].bytes && RunOf(s).messages[i].messageType == PieceType(ps[i])
      {
        if i > 0 {
          assert ps[1..][i - 1] == ps[i];
        }
      }
    }
  }

  lemma TailSegment(tail: seq<byte>)
    requires Unfinished(tail)
    ensures RunOf(tail) == Run(if tail == [] then [] else [NonRtcm(tail)], [])
  {
    hide NextMessage, SegmentLength, ShortMsm, Unfinished;
    RunStep(tail);
    EmptyRun();
    if tail != [] {
      UnfinishedIsSegment(tail);
      NextIsSegment(tail);
      NonRtcmIsPlain(tail);
      assert tail[|tail|..] == [];
    }
  }

  lemma EmptyRun()
    ensures RunOf([]) == Run([], [])
  {
  }

  lemma FirstIsGood(ps: seq<Piece>)
    requires ps != [] && WellFormed(ps)
    ensures GoPiece(ps[0])
  {
    assert ps[0] in ps;
  }

  lemma WellFormedTail(ps: seq<Piece>)
    requires ps != [] && WellFormed(ps)
    ensures WellFormed(ps[1..]) && ps[0] in ps && forall p :: p in ps[1..] ==> p in ps
  {
    forall i | 0 <= i < |ps[1..]| - 1
      ensures !(ps[1..][i].Junk? && ps[1..][i + 1].Junk?)
    {
      assert !(ps[i + 1].Junk? && ps[i + 1 + 1].Junk?);
    }
  }

  lemma StreamStart(ps: seq<Piece>, tail: seq<byte>)
    requires ps != [] && WellFormed(ps) && Unfinished(tail) && ps[0].Junk?
    ensures var rest := Stream(ps[1..]) + tail; rest == [] || rest[0] == PREAMBLE
  {
    if |ps| > 1 {
      assert !ps[0 + 1].Junk? && ps[1] in ps;
    }
  }

  /** And every stream whatever is built like that. */
  lemma {:induction false} EveryStreamIsPieces(s: seq<byte>)
    ensures exists ps, tail :: WellFormed(ps) && Unfinished(tail) && s == Stream(ps) + tail
    decreases |s|
  {
    hide ValidFrame, IsDamaged, SegmentLength;
    if Unfinished(s) {
      assert WellFormed([]) && s == Stream([]) + s;
    } else {
      var n := SegmentLength(s);
      var p := FirstPiece(s);
      EveryStreamIsPieces(s[n..]);
      var ps, tail :| WellFormed(ps) && Unfinished(tail) && s[n..] == Stream(ps) + tail;
      FirstPieceFits(s, ps, tail);
      assert ([p] + ps)[1..] == ps;
      assert s == p.bytes + (Stream(ps) + tail);
      assert s == Stream([p] + ps) + tail;
      MorePieces(p, ps);
    }
  }

  lemma MorePieces(p: Piece, ps: seq<Piece>)
    requires GoPiece(p) && WellFormed(ps) && (ps != [] && p.Junk? ==> !ps[0].Junk?)
    ensures WellFormed([p] + ps)
  {
    hide GoPiece;
  }

  function FirstPiece(s: seq<byte>): (p: Piece)
    requires s != []
    ensures p.bytes == s[..SegmentLength(s)]
  {
    var seg := s[..SegmentLength(s)];
    if s[0] != PREAMBLE then Junk(seg)
    else if |seg| == 5 then BadStart(seg)
    else if ValidFrame(seg) then Frame(seg)
    else Damaged(seg)
  }

  lemma FirstPieceFits(s: seq<byte>, ps: seq<Piece>, tail: seq<byte>)
    requires !Unfinished(s) && WellFormed(ps) && Unfinished(tail) && s[SegmentLength(s)..] == Stream(ps) + tail
    ensures GoPiece(FirstPiece(s)) && s == FirstPiece(s).bytes + s[SegmentLength(s)..]
    ensures FirstPiece(s).Junk? && ps != [] ==> !ps[0].Junk?
  {
    hide GoPiece, Unfinished, SegmentLength, JunkLength, ValidFrame;
    if s == [] || s[0] == PREAMBLE {
      WholeSegment(s);
    } else {
      JunkIsFirst(s);
      if ps != [] {
        assert ps[0] in ps;
        JunkOrPreamble(ps[0], Stream(ps[1..]) + tail);
        assert s[SegmentLength(s)..] == ps[0].bytes + (Stream(ps[1..]) + tail);
      }
    }
  }

  lemma JunkIsFirst(s: seq<byte>)
    requires s != [] && s[0] != PREAMBLE
    ensures GoPiece(Junk(s[..SegmentLength(s)]))
    ensures SegmentLength(s) < |s| ==> s[SegmentLength(s)] == PREAMBLE
  {
    JunkLengthIsFirstPreamble(s);
  }

  lemma JunkOrPreamble(p: Piece, rest: seq<byte>)
    requires GoPiece(p)
    ensures p.bytes != [] && (p.Junk? <==> (p.bytes + rest)[0] != PREAMBLE)
  {
    if p.Junk? {
      assert p.bytes[0] in p.bytes;
    }
  }

  lemma WholeSegment(s: seq<byte>)
    requires !Unfinished(s) && (s == [] || s[0] == PREAMBLE)
    ensures s != [] && GoPiece(FirstPiece(s)) && !FirstPiece(s).Junk?
  {
  }

  lemma NonRtcmIsPlain(s: seq<byte>)
    requires s != [] && NextMessage(s).Got? && NextMessage(s).message.messageType == NON_RTCM
    ensures NextMessage(s) == Got(NonRtcm(s[..SegmentLength(s)]))
  {
  }

  // ------------------------------------------------------------- the filter

  function RtcmOnly(ms: seq<Message>): seq<seq<byte>> {
    if ms == [] then []
    else (if ms[0].messageType == NON_RTCM then [] else [ms[0].rawData]) + RtcmOnly(ms[1..])
  }

  /** writeRTCMMessages, with a writer that accepts everything. */
  method WriteRTCMMessages(ch: seq<Message>) returns (written: seq<byte>)
    ensures written == Flatten(RtcmOnly(ch))
  {
    written := [];
    var next := 0;
    while next < |ch|
      invariant next <= |ch|
      invariant Flatten(RtcmOnly(ch)) == written + Flatten(RtcmOnly(ch[next..]))
    {
      var message := ch[next];
      assert ch[next..][1..] == ch[next + 1..];
      next := next + 1;
      if message.messageType == NON_RTCM {
        assert RtcmOnly(ch[next - 1..]) == [] + RtcmOnly(ch[next..]) == RtcmOnly(ch[next..]);
        continue;
      }
      FlattenConcat([message.rawData], RtcmOnly(ch[next..]));
      assert Flatten([message.rawData]) == message.rawData;
      written := written + message.rawData;
    }
  }

  /** rtcmfilter as a function from its standard input to its standard output. */
  function Filter(s: seq<byte>): seq<byte> {
    Flatten(RtcmOnly(RunOf(s).messages))
  }

  lemma {:induction false} FilteredAreFrames(ms: seq<Message>)
    requires forall m :: m in ms ==> m.messageType == TypeOf(m.rawData) && !ShortMsm(m.rawData)
    ensures forall f :: f in RtcmOnly(ms) ==> ValidFrame(f) && !ShortMsm(f)
  {
    if ms != [] {
      assert ms[0] in ms;
      FilteredAreFrames(ms[1..]);
    }
  }

  /** A stream of frames comes back as those frames. */
  lemma {:induction false} FramesPassThrough(fs: seq<seq<byte>>)
    requires forall f :: f in fs ==> ValidFrame(f) && !ShortMsm(f)
    ensures RtcmOnly(RunOf(Flatten(fs)).messages) == fs && RunOf(Flatten(fs)).rest == []
  {
    if fs != [] {
      var f, rest := fs[0], Flatten(fs[1..]);
      assert f in fs;
      FrameIsSegment(f, rest);
      NextIsSegment(f + rest);
      FramesPassThrough(fs[1..]);
      var r := RunOf(f + rest);
      assert r.messages[1..] == RunOf(rest).messages;
    }
  }

  /**
   What the filter writes is a sequence of valid frames, and running the filter
   on its own output writes it again, byte for byte, without a panic.
   */
  lemma FilterSoundAndIdempotent(s: seq<byte>)
    ensures forall f :: f in RtcmOnly(RunOf(s).messages) ==> ValidFrame(f)
    ensures Filter(Filter(s)) == Filter(s) && RunOf(Filter(s)).rest == []
  {
    var ms := RunOf(s).messages;
    forall m | m in ms
      ensures m.messageType == TypeOf(m.rawData) && !ShortMsm(m.rawData)
    {
      var k :| 0 <= k < |ms| && ms[k] == m;
      MessagesAreClassified(s, k);
    }
    FilteredAreFrames(ms);
    FramesPassThrough(RtcmOnly(ms));
  }
}
