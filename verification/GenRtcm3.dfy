/**
 gen_rtcm3 of c/rtklib/rtcm.c: the frame around an encoded message, and the
 whole way from an encoder through RTKLIB's framer to the decoders.
 */
module GenRtcm3 {
  import opened Bits
  import opened BitFields
  import opened Crc24q
  import opened Frames
  import opened Layout
  import opened MsmMasks
  import opened MsmIndex
  import opened MsmEncode
  import opened MsmDecode
  import opened RtklibFramer
  import opened GoFramer
  import opened GoStream
  import MsmRoundTrip
  import Station

  /** The messages whose encoders are modelled, with what the encoders take. */
  datatype Outgoing =
    | Arp(arp: Station.Arp)
    | Msm4(sys: System, head: Head, obs: seq<Obs>, cols: seq<seq<int>>)
    | Msm7(sys: System, head: Head, obs: seq<Obs>, cols: seq<seq<int>>)

  function SignalsIn(m: Outgoing): seq<Signal>
    requires !m.Arp?
  {
    SignalsOf(m.obs, |m.obs|)
  }

  function Formats(m: Outgoing): (fmt: seq<Format>)
    requires !m.Arp?
    ensures ValidFormats(fmt)
  {
    if m.Msm4? then MSM4 else MSM7
  }

  function Kind(m: Outgoing): nat {
    if m.Msm4? then 4 else 7
  }

  ghost predicate Encodable(m: Outgoing) {
    match m
    case Arp(a) => Station.InRange38(a.x) && Station.InRange38(a.y) && Station.InRange38(a.z)
    case _ =>
      var ps := SignalsIn(m);
      && m.head.messageType == MessageNumber(m.sys, Kind(m))
      && InRange(m.obs) && Proper(ps) && Fitting(Formats(m), m.cols, Ones(SatMask(ps)), Sent(CellMask(ps)))
  }

  /** The bits an encoder writes from bit 24 on. */
  ghost function MessageBits(m: Outgoing): bits
    requires Encodable(m)
  {
    match m
    case Arp(a) => Station.ArpBits(a)
    case _ => HeadBits(m.head, SignalsIn(m)) + BodyBits(Formats(m), m.cols, |Formats(m)|)
  }

  method EncodeRtcm3(buff: array<byte>, m: Outgoing) returns (nbit: nat)
    requires buff.Length == 1200 && Encodable(m)
    modifies buff
    ensures nbit == 24 + |MessageBits(m)| <= 8 * 1190
    ensures BitsOf(buff[..]) == Overwrite(old(BitsOf(buff[..])), 24, MessageBits(m))
  {
    hide BitsOf, HeadBits, BodyBits, Station.ArpBits, Overwrite;
    match m
    case Arp(a) =>
      if a.hgt == None {
        nbit := Station.EncodeType1005(buff, a);
      } else {
        nbit := Station.EncodeType1006(buff, a);
      }
    case Msm4(_, h, obs, cols) => nbit := EncodeMsm4(buff, h, obs, cols);
    case Msm7(_, h, obs, cols) => nbit := EncodeMsm7(buff, h, obs, cols);
  }

  /** The frame without its parity: preamble, reserved bits, length, message, padding. */
  function Unsealed(len: nat, message: bits, padding: bits): bits {
    ToBits(0xD3, 8) + ToBits(0, 6) + ToBits(len, 10) + message + padding
  }

  predicate IsPadding(padding: bits) {
    |padding| < 8 && padding == Zeros(|padding|)
  }

  /** What gen_rtcm3 promises about the frame it leaves at the front of the buffer. */
  ghost predicate FrameOf(f: seq<byte>, message: bits) {
    && ValidFrame(f)
    && 24 + |message| <= 8 * (|f| - 3) < 24 + |message| + 8
    && Holds(BitsOf(f), 24, message)
    && OnlyZeros(BitsOf(f), 24 + |message|, 8 * (|f| - 3))
  }

  predicate OnlyZeros(s: bits, lo: nat, hi: nat) {
    hi <= |s| && forall k :: lo <= k < hi ==> !s[k]
  }

  method GenRtcm3(buff: array<byte>, m: Outgoing) returns (ok: bool, len: nat, nbyte: nat)
    requires buff.Length == 1200 && Encodable(m)
    modifies buff
    ensures ok <==> |MessageBits(m)| <= 8 * 1023
    ensures ok ==> nbyte == len + 3 <= 1029 && FrameOf(buff[..nbyte], MessageBits(m))
  {
    hide BitsOf, ToBits, MessageBits, Encodable, FrameOf, Overwrite, ValidFrame;
    MessageNonEmpty(m);
    ghost var s := BitsOf(buff[..]);
    // set preamble and reserved
    var i := PutLeader(buff);
    // encode rtcm 3 message body
    var nbit := EncodeRtcm3(buff, m);
    OverwriteTwice(s, 0, LeaderBits(), MessageBits(m));
    // padding to align 8 bit boundary
    ghost var w, padding;
    i, w, padding := Pad(buff, nbit, s, LeaderBits() + MessageBits(m));
    // message length (header+data) (bytes)
    len := i / 8;
    nbyte := len + 3;
    if len >= 3 + 1024 {
      return false, 0, 0;
    }
    Seal(buff, len, s, MessageBits(m), padding);
    ok := true;
  }

  /** Preamble, reserved bits, and a length of 0 for the time being. */
  function LeaderBits(): (w: bits)
    ensures |w| == 24
  {
    ToBits(0xD3, 8) + ToBits(0, 6) + ToBits(0, 10)
  }

  method PutLeader(buff: array<byte>) returns (i: nat)
    requires buff.Length == 1200
    modifies buff
    ensures i == 24 && BitsOf(buff[..]) == Overwrite(old(BitsOf(buff[..])), 0, LeaderBits())
  {
    hide BitsOf, ToBits;
    ghost var s, w := BitsOf(buff[..]), [];
    assert Overwrite(s, 0, w) == s;
    i := 0;
    i, w := PutBits(buff, i, 8, 0xD3, s, 0, w);
    i, w := PutBits(buff, i, 6, 0, s, 0, w);
    i, w := PutBits(buff, i, 10, 0, s, 0, w);
    assert w == LeaderBits();
  }

  /** The last two steps: the length, and the parity behind the message. */
  method Seal(buff: array<byte>, len: nat, ghost s: bits, ghost message: bits, ghost padding: bits)
    requires buff.Length == 1200 && |s| == 8 * 1200 && 4 <= len <= 1026
    requires 24 + |message| + |padding| == 8 * len && IsPadding(padding)
    requires BitsOf(buff[..]) == Overwrite(s, 0, LeaderBits() + message + padding)
    modifies buff
    ensures FrameOf(buff[..len + 3], message)
  {
    hide BitsOf, ToBits, FrameOf, Crc, Value, Overwrite;
    ghost var w := Unsealed(len - 3, message, padding);
    assert LeaderBits() + message + padding == Unsealed(0, message, padding);
    // message length without header and parity
    PatchLength(s, len - 3, message, padding);
    SetBitu(buff, 14, 10, len - 3);
    // crc-24q
    FrontBits(buff[..], len, s, w);
    ghost var unsealed := buff[..len];
    assert buff[..][..len] == buff[..len];
    var crc := RtkCrc24q(buff[..len]);
    CrcFits(crc);
    ghost var sealed;
    var i := 8 * len;
    i, sealed := PutBits(buff, i, 24, Uint24(crc), s, 0, w);
    FrontBits(buff[..], len + 3, s, sealed);
    assert buff[..][..len + 3] == buff[..len + 3];
    SealedFrame(buff[..len + 3], unsealed, len, message, padding, crc);
  }

  method Pad(buff: array<byte>, nbit: nat, ghost s: bits, ghost w0: bits)
    returns (i: nat, ghost w: bits, ghost padding: bits)
    requires buff.Length == 1200 && |s| == 8 * 1200 && nbit == |w0| <= 8 * 1190 &&
             BitsOf(buff[..]) == Overwrite(s, 0, w0)
    modifies buff
    ensures i == |w| && i % 8 == 0 && i == (nbit + 7) / 8 * 8 && w == w0 + padding && IsPadding(padding)
    ensures BitsOf(buff[..]) == Overwrite(s, 0, w)
  {
    hide BitsOf, ToBits;
    i, w, padding := nbit, w0, [];
    assert w0 + [] == w0;
    while i % 8 != 0
      invariant i == |w| == nbit + |padding| && w == w0 + padding && padding == Zeros(|padding|)
      invariant (nbit + 7) / 8 * 8 - i >= 0
      invariant BitsOf(buff[..]) == Overwrite(s, 0, w)
      decreases (nbit + 7) / 8 * 8 - i
    {
      OneBitNumeral(false);
      i, w := PutBits(buff, i, 1, 0, s, 0, w);
      padding := padding + [false];
    }
  }

  /** The three parity bytes are those of a frame whose other bytes are already in place. */
  lemma CrcFits(crc: bv32)
    requires crc < 0x1000000
    ensures Uint24(crc) < 0x100_0000 && ToBits(Uint24(crc), 24) == WordBits(crc)
  {
    WordSizes();
    ValueBound(WordBits(crc));
    ToBitsValue(WordBits(crc));
  }

  lemma PatchLength(s: bits, n: nat, message: bits, padding: bits)
    requires 24 + |message| + |padding| <= |s|
    ensures Overwrite(Overwrite(s, 0, Unsealed(0, message, padding)), 14, ToBits(n, 10)) ==
            Overwrite(s, 0, Unsealed(n, message, padding))
  {
    hide ToBits;
    var lead, rest := ToBits(0xD3, 8) + ToBits(0, 6), message + padding;
    assert Unsealed(0, message, padding) == lead + ToBits(0, 10) + rest;
    assert Unsealed(n, message, padding) == lead + ToBits(n, 10) + rest;
    ReplaceInside(s, lead, ToBits(0, 10), ToBits(n, 10), rest);
  }

  lemma ReplaceInside(s: bits, a: bits, b: bits, c: bits, d: bits)
    requires |b| == |c| && |a| + |b| + |d| <= |s|
    ensures Overwrite(Overwrite(s, 0, a + b + d), |a|, c) == Overwrite(s, 0, a + c + d)
  {
  }

  lemma FrontBits(buff: seq<byte>, n: nat, s: bits, w: bits)
    requires n <= |buff| && |s| == 8 * |buff| && |w| == 8 * n && BitsOf(buff) == Overwrite(s, 0, w)
    ensures BitsOf(buff[..n]) == w
  {
    BitsOfSlice(buff, 0, n);
    assert Overwrite(s, 0, w)[..|w|] == w;
  }

  lemma SealedFrame(f: seq<byte>, unsealed: seq<byte>, len: nat, message: bits, padding: bits, crc: bv32)
    requires |f| == len + 3 && 4 <= len <= 1026 && 24 + |message| + |padding| == 8 * len && IsPadding(padding)
    requires BitsOf(unsealed) == Unsealed(len - 3, message, padding)
    requires BitsOf(f) == Unsealed(len - 3, message, padding) + ToBits(Uint24(crc), 24)
    requires crc < 0x1000000 && crc == Crc(unsealed)
    ensures FrameOf(f, message)
  {
    hide ToBits, Crc, Value, ParityOk;
    var lead := ToBits(0xD3, 8) + ToBits(0, 6);
    var s, w := BitsOf(f), Unsealed(len - 3, message, padding);
    WholeHolds(s);
    HoldsBoth(s, 0, w, ToBits(Uint24(crc), 24));
    HoldsBoth(s, 0, lead + ToBits(len - 3, 10) + message, padding);
    HoldsBoth(s, 0, lead + ToBits(len - 3, 10), message);
    HoldsBoth(s, 0, lead, ToBits(len - 3, 10));
    HoldsBoth(s, 0, ToBits(0xD3, 8), ToBits(0, 6));
    ZerosHold(s, 24 + |message|, padding);
    PreambleByte(f);
    HeaderFields(f, len - 3);
    SealIsParity(f, unsealed, crc);
  }

  lemma ZerosHold(s: bits, pos: nat, padding: bits)
    requires Holds(s, pos, padding) && IsPadding(padding)
    ensures OnlyZeros(s, pos, pos + |padding|)
  {
    forall k | pos <= k < pos + |padding|
      ensures !s[k]
    {
      assert s[k] == s[pos..pos + |padding|][k - pos] == Zeros(|padding|)[k - pos];
    }
  }

  lemma WholeHolds(s: bits)
    ensures Holds(s, 0, s)
  {
  }

  lemma PreambleByte(f: seq<byte>)
    requires f != [] && Holds(BitsOf(f), 0, ToBits(0xD3, 8))
    ensures f[0] == PREAMBLE
  {
    BitsOfOne(f, 0);
    ByteValue(0xD3);
    ToBitsValue(ByteBits(0xD3));
    ByteBitsInjective(f[0], 0xD3);
  }

  lemma HeaderFields(f: seq<byte>, n: nat)
    requires |f| >= 3 && n < 1024 && Holds(BitsOf(f), 8, ToBits(0, 6)) && Holds(BitsOf(f), 14, ToBits(n, 10))
    ensures ReservedZero(f) && HeaderLength(f) == n
  {
    hide BitsOf, Pow2;
    HeaderAsBits(f);
    ValueToBits(0, 6);
    ValueToBits(n, 10);
    Pow2Add(8, 2);
    assert Pow2(10) == 1024 by { Pow2OfTen(); }
    DivModRange(0, Pow2(6));
    DivModRange(n, Pow2(10));
  }

  lemma Pow2OfTen()
    ensures Pow2(10) == 1024
  {
  }

  lemma SealIsParity(f: seq<byte>, unsealed: seq<byte>, crc: bv32)
    requires |f| == |unsealed| + 3 && crc < 0x1000000 && crc == Crc(unsealed)
    requires BitsOf(f) == BitsOf(unsealed) + ToBits(Uint24(crc), 24)
    ensures ParityOk(f)
  {
    hide Crc, ToBits, ParityOk, Value;
    var n := |unsealed|;
    BitsOfSlice(f, 0, n);
    assert BitsOf(f)[8 * 0..8 * n] == BitsOf(unsealed);
    BitsOfInjective(f[..n], unsealed);
    CrcFits(crc);
    RtklibParityTest(f);
    assert BitsOf(f)[8 * (|f| - 3)..8 * |f|] == ToBits(Uint24(crc), 24);
  }

  // ------------------------------------------------------- the whole way

  /**
   A frame from gen_rtcm3 fed to the idle framer: nothing is delivered before
   its last byte, and then exactly the frame.
   */
  lemma FrameArrives(f: seq<byte>, message: bits)
    requires FrameOf(f, message)
    ensures RunFrom([], f) == RtkRun([], [f])
    ensures forall n :: 0 <= n < |f| ==> RunFrom([], f[..n]) == RtkRun(f[..n], [])
  {
    FrameDelivered(f);
  }

  /**
   Station coordinates all the way: the frame that gen_rtcm3 makes of a type
   1005 or 1006 message arrives at its last byte, and both decoders recover the
   station and, to within 0.1 mm, the coordinates.
   */
  lemma ArpRoundTrip(f: seq<byte>, a: Station.Arp, following: Following)
    requires Encodable(Arp(a)) && FrameOf(f, MessageBits(Arp(a))) && StaidOk(following, a.staid % 4096)
    ensures RunFrom([], f) == RtkRun([], [f])
    ensures Station.ParseArp(BitsOf(f), 8 * (|f| - 3), a.hgt.Some?, following) == Some(Station.ReadingOf(a))
    ensures MessageType(f) == Station.TypeOf(a) && |f| == (if a.hgt.Some? then 27 else 25)
    ensures Station.ReadArp(BitsOf(f), a.hgt.Some?) == Station.ReadingOf(a)
    ensures Station.IsStation(Station.StaOf(Station.ReadingOf(a)), a)
  {
    FrameArrives(f, MessageBits(Arp(a)));
    ArpFrame(f, a);
    hide Station.ReadArp, Station.ReadingOf, Station.IsStation, MessageType, BitsOf, Value, FrameOf, Encodable,
         MessageBits, RunFrom, IsFrame;
    Station.ArpReadsBack(BitsOf(f), a);
    Station.ReadingIsStation(a);
    TypeAsBits(f);
  }

  lemma ArpFrame(f: seq<byte>, a: Station.Arp)
    requires Encodable(Arp(a)) && FrameOf(f, MessageBits(Arp(a)))
    ensures Holds(BitsOf(f), 24, Station.ArpBits(a)) && |f| == (if a.hgt.Some? then 27 else 25)
    ensures Station.InRange38(a.x) && Station.InRange38(a.y) && Station.InRange38(a.z)
  {
    hide ValidFrame, Holds, BitsOf;
  }

  /** The same through the code: encode, frame, receive, and decode with RTKLIB and with Go. */
  method SendArp(buff: array<byte>, a: Station.Arp, following: Following)
    returns (c: Option<Station.Sta>, go: Option<Station.Message>)
    requires buff.Length == 1200 && Encodable(Arp(a)) && StaidOk(following, a.staid % 4096)
    modifies buff
    ensures c.Some? && Station.IsStation(c.value, a)
    ensures go.Some? && go.value.fields.staid == a.staid % 4096
    ensures Station.Near(go.value.fields.x as real * 0.0001, a.x)
    ensures Station.Near(go.value.fields.y as real * 0.0001, a.y)
    ensures Station.Near(go.value.fields.z as real * 0.0001, a.z)
    ensures a.hgt.Some? ==>
              && go.value.fields.height.Some?
              && Station.NearHeight(go.value.fields.height.value as real * 0.0001, a.hgt.value)
  {
    hide FrameOf, Encodable, MessageBits, Station.ReadingOf, Station.ReadArp, Station.ParseArp, BitsOf, RunFrom,
         MessageType, Value, Signed, Station.Near, Station.NearHeight;
    MessageFits(Arp(a));
    var ok, len, nbyte := GenRtcm3(buff, Arp(a));
    ArpRoundTrip(buff[..nbyte], a, following);
    var received := Receive(buff[..nbyte]);
    if a.hgt.Some? {
      c := Station.DecodeType1006(received, len, following);
    } else {
      c := Station.DecodeType1005(received, len, following);
    }
    go := Station.GetMessage(received[..], a.hgt.Some?);
  }

  /** A frame read from a file by the framer, in a buffer of its own. */
  method Receive(f: seq<byte>) returns (buff: array<byte>)
    requires RunFrom([], f) == RtkRun([], [f])
    ensures fresh(buff) && buff[..] == f
  {
    hide RunFrom;
    var rtcm := new Rtcm();
    var messages := InputFile(rtcm, f);
    var received := messages[0];
    buff := new byte[|received|](i requires 0 <= i < |received| => received[i]);
  }

  lemma MessageNonEmpty(m: Outgoing)
    requires Encodable(m)
    ensures |MessageBits(m)| >= 1
  {
    hide BodyBits, Station.ArpBits, SatMask, SigMask, CellMask, FixedBits, Written;
  }

  /** Whatever the observations, the message is within gen_rtcm3's limit of 1023 bytes. */
  lemma MessageFits(m: Outgoing)
    requires Encodable(m)
    ensures |MessageBits(m)| <= 8 * 1023
  {
    hide BodyBits, Station.ArpBits, SatMask, SigMask, CellMask, BodyExtent, FixedBits, Ones, Written;
    if !m.Arp? {
      var ps := SignalsIn(m);
      BodyFits(m.head, ps, Ones(SatMask(ps)), Sent(CellMask(ps)));
      BodyLength(Formats(m), m.cols, Ones(SatMask(ps)), Sent(CellMask(ps)), |Formats(m)|);
    }
  }

  /**
   An MSM4 or MSM7 all the way: its frame always arrives, and decodes exactly
   when satellites times signals is at most 64.  Then satellites, signals and
   cells are those observed, and the columns are those encoded exactly when
   their numbers fit their fields.
   */
  lemma MsmArrives(f: seq<byte>, m: Outgoing, following: Following)
    requires !m.Arp? && Encodable(m) && FrameOf(f, MessageBits(m)) && StaidOk(following, m.head.staid % Pow2(12))
    ensures RunFrom([], f) == RtkRun([], [f])
    ensures var ps := SignalsIn(m);
            var r := ParseMsm(Formats(m), BitsOf(f), 8 * (|f| - 3), m.sys, following);
            && (r.Some? <==> |Ids(SatMask(ps))| * |Ids(SigMask(ps))| <= 64)
            && (r.Some? ==>
                  && r.value.head == MsmRoundTrip.HeaderOf(m.head, ps, m.sys)
                  && (r.value.cols == m.cols <==> MsmRoundTrip.ColumnsFit(Formats(m), m.cols, |Formats(m)|)))
  {
    hide HeadBits, BodyBits, ParseMsm, MsmRoundTrip.HeaderOf, MsmRoundTrip.ColumnsFit, SatMask, SigMask, CellMask, Ids,
         BitsOf;
    FrameArrives(f, MessageBits(m));
    MsmRoundTrip.MsmDecodes(Formats(m), BitsOf(f), 8 * (|f| - 3), m.head, SignalsIn(m), m.cols, m.sys, following);
  }

  /** The same through the code: encode, frame, receive and decode. */
  method SendMsm(buff: array<byte>, m: Outgoing, following: Following) returns (r: Option<MsmMessage>)
    requires buff.Length == 1200 && !m.Arp? && Encodable(m) && StaidOk(following, m.head.staid % Pow2(12))
    modifies buff
    ensures var ps := SignalsIn(m);
            && (r.Some? <==> |Ids(SatMask(ps))| * |Ids(SigMask(ps))| <= 64)
            && (r.Some? ==>
                  && r.value.head == MsmRoundTrip.HeaderOf(m.head, ps, m.sys)
                  && (r.value.cols == m.cols <==> MsmRoundTrip.ColumnsFit(Formats(m), m.cols, |Formats(m)|)))
  {
    hide FrameOf, Encodable, MessageBits, ParseMsm, BitsOf, RunFrom, MsmRoundTrip.HeaderOf, MsmRoundTrip.ColumnsFit,
         SatMask, SigMask, Ids, SignalsIn;
    MessageFits(m);
    var ok, len, nbyte := GenRtcm3(buff, m);
    MsmArrives(buff[..nbyte], m, following);
    var received := Receive(buff[..nbyte]);
    MsmFields(buff[..nbyte], m);
    NumberMatchesSwitch(m.sys, Kind(m), m.head.messageType);
    r := DecodeRtcm3(received, len, following);
  }

  /**
   The Go header package on the same frame: its type is one GetMSMHeader takes,
   and its masks and cells are there exactly when satellites times signals is
   at most 64.
   */
  lemma MsmReachesGo(f: seq<byte>, m: Outgoing)
    requires !m.Arp? && Encodable(m) && FrameOf(f, MessageBits(m))
    ensures |f| >= 6 && MessageType(f) == m.head.messageType && IsMsm(MessageType(f))
    ensures var ps := SignalsIn(m);
            var h := ParseHead(BitsOf(f), 8 * (|f| - 3), GPS, ANY_STATION);
            && (h.Some? <==> |Ids(SatMask(ps))| * |Ids(SigMask(ps))| <= 64)
            && (h.Some? ==> h.value == MsmRoundTrip.HeaderOf(m.head, ps, GPS))
  {
    hide HeadBits, BodyBits, ParseHead, MsmRoundTrip.HeaderOf, SatMask, SigMask, CellMask, Ids, BitsOf, MessageType,
         Holds, Ones, CellCount;
    var ps := SignalsIn(m);
    HoldsBoth(BitsOf(f), 24, HeadBits(m.head, ps), BodyBits(Formats(m), m.cols, |Formats(m)|));
    TypeOfMsm(f, m.head, ps, m.sys, Kind(m));
    MsmRoundTrip.HeadParses(BitsOf(f), 8 * (|f| - 3), m.head, ps, GPS, ANY_STATION);
  }

  lemma TypeOfMsm(f: seq<byte>, h: Head, ps: seq<Signal>, sys: System, n: nat)
    requires Proper(ps) && |f| >= 6 && Holds(BitsOf(f), 24, HeadBits(h, ps))
    requires h.messageType == MessageNumber(sys, n) && (n == 4 || n == 7)
    ensures MessageType(f) == h.messageType && IsMsm(h.messageType)
  {
    hide SatMask, SigMask, CellMask, BitsOf, FixedBits, Value, MessageType, Holds, ToBits, Written;
    var s := BitsOf(f);
    HoldsBoth(s, 24, FixedBits(h) + SatMask(ps) + SigMask(ps), Written(CellMask(ps)));
    HoldsBoth(s, 24, FixedBits(h) + SatMask(ps), SigMask(ps));
    HoldsBoth(s, 24, FixedBits(h), SatMask(ps));
    MsmRoundTrip.FixedHolds(s, h);
    FieldHolds(s, 24, h.messageType, 12);
    TypeAsBits(f);
    WordSizes();
  }

  /**
   The Go handler on the frame: it sends one message, of the type and with the
   timestamp that were encoded; a station message has no timestamp.
   */
  lemma HandlerGetsFrame(f: seq<byte>, m: Outgoing)
    requires Encodable(m) && FrameOf(f, MessageBits(m))
    ensures var t := if !m.Arp? then m.head.messageType else if m.arp.hgt.Some? then 1006 else 1005;
            var timestamp := if m.Arp? then 0 else m.head.epoch % 0x4000_0000;
            RunOf(f) == Run([Message(t, f, timestamp)], [])
  {
    hide HeadBits, BodyBits, BitsOf, Value, Holds, NextMessage, SegmentLength, MessageType, ChecksPass, Station.ArpBits;
    FrameIsSegment(f, []);
    assert f + [] == f && f[|f|..] == [];
    RunStep(f);
    NextIsSegment(f);
    if m.Arp? {
      Station.ArpOnTheWire(BitsOf(f), m.arp);
      MsmNumbers(MessageType(f));
    } else {
      MsmFields(f, m);
    }
    if NextMessage(f).Got? {
      NextSaysWhatItIs(f);
      ValidSays(f);
    }
  }

  /** What SaysWhatItIs asks of a frame. */
  lemma ValidSays(f: seq<byte>)
    requires ValidFrame(f)
    ensures |f| >= 7 && f[0] == 0xD3 && Value(BitsOf(f)[14..24]) + 6 == |f| && ChecksPass(f)
  {
    hide Feed, BitsOf, Value, ParityOk;
    HeaderAsBits(f);
    ParityIsEmptyRegister(f);
  }

  lemma MsmFields(f: seq<byte>, m: Outgoing)
    requires !m.Arp? && Encodable(m) && FrameOf(f, MessageBits(m))
    ensures |f| >= 25 && Value(BitsOf(f)[24..36]) == m.head.messageType && MsmNumber(m.head.messageType)
    ensures m.head.messageType == MessageNumber(m.sys, Kind(m))
    ensures Value(BitsOf(f)[48..78]) == m.head.epoch % 0x4000_0000
  {
    hide HeadBits, BodyBits, BitsOf, Value, Holds, MessageType, Pow2;
    var s, ps := BitsOf(f), SignalsIn(m);
    HoldsBoth(s, 24, HeadBits(m.head, ps), BodyBits(Formats(m), m.cols, |Formats(m)|));
    TypeOfMsm(f, m.head, ps, m.sys, Kind(m));
    TypeAsBits(f);
    MsmNumbers(m.head.messageType);
    EpochField(s, m.head, ps);
  }

  lemma EpochField(s: bits, h: Head, ps: seq<Signal>)
    requires Proper(ps) && Holds(s, 24, HeadBits(h, ps))
    ensures |s| >= 193 && Value(s[48..78]) == h.epoch % 0x4000_0000
  {
    hide FixedBits, SatMask, SigMask, CellMask, Value, ToBits, Holds, Written, Pow2;
    HoldsBoth(s, 24, FixedBits(h) + SatMask(ps) + SigMask(ps), Written(CellMask(ps)));
    HoldsBoth(s, 24, FixedBits(h) + SatMask(ps), SigMask(ps));
    HoldsBoth(s, 24, FixedBits(h), SatMask(ps));
    HoldsRoom(s, 24, FixedBits(h) + SatMask(ps) + SigMask(ps));
    MsmRoundTrip.FixedHolds(s, h);
    FieldHolds(s, 48, h.epoch, 30);
    WordSizes();
    Pow2Add(24, 6);
  }

  // ------------------------------------------------------- frames exist

  /** Every message has a frame, the one that gen_rtcm3 makes. */
  lemma FrameExists(m: Outgoing)
    requires Encodable(m)
    ensures exists f :: FrameOf(f, MessageBits(m))
  {
    hide Encodable, MessageBits;
    MessageFits(m);
    MessageNonEmpty(m);
    var n := |MessageBits(m)|;
    PaddedLength(n);
    FrameAround(MessageBits(m), Zeros((8 - n % 8) % 8), (24 + n + (8 - n % 8) % 8) / 8);
  }

  lemma PaddedLength(n: nat)
    requires 1 <= n <= 8 * 1023
    ensures var p, len := (8 - n % 8) % 8, (24 + n + (8 - n % 8) % 8) / 8;
            p < 8 && 24 + n + p == 8 * len && 4 <= len <= 1026
  {
  }

  lemma FrameAround(message: bits, padding: bits, len: nat)
    requires 24 + |message| + |padding| == 8 * len && 4 <= len <= 1026 && IsPadding(padding)
    ensures exists f :: FrameOf(f, message)
  {
    hide FrameOf, Crc, ToBits, BitsOf, BytesOf, Value, WordBits, IsPadding;
    var w := Unsealed(len - 3, message, padding);
    assert |w| == 8 * len;
    var unsealed := BytesOf(w);
    BitsOfBytes(w);
    CrcBound(unsealed);
    var parity := ToBits(Uint24(Crc(unsealed)), 24);
    assert |w + parity| == 8 * (len + 3);
    BitsOfBytes(w + parity);
    SealedFrame(BytesOf(w + parity), unsealed, len, message, padding, Crc(unsealed));
  }
}
