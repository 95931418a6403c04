/**
 The Go handler's framer: rtcm/pushback/byte_channel.go and the framing half of
 rtcm/handler/handler.go, as a filter in apps/rtcmfilter/main.go uses it.

 A channel that its writer has filled and closed is the sequence of bytes it
 still has to deliver.  A slice index out of range is a run-time panic in Go;
 the one place where malformed input reaches it is an outcome of its own here.
 */
module GoFramer {
  import opened Bits
  import opened BitFields
  import opened Crc24q
  import opened Frames

  // -------------------------------------------------------- pushback channel

  class ByteChannel {
    var pushBackBuffer: seq<byte>
    var incoming: seq<byte>

    constructor (ch: seq<byte>)
      ensures pushBackBuffer == [] && incoming == ch
    {
      pushBackBuffer := [];
      incoming := ch;
    }

    ghost function Contents(): seq<byte>
      reads this
    {
      pushBackBuffer + incoming
    }

    method GetNextByte() returns (b: Option<byte>)
      modifies this
      ensures old(Contents()) == [] ==> b == None && Contents() == []
      ensures old(Contents()) != [] ==> b == Some(old(Contents())[0]) && Contents() == old(Contents())[1..]
      ensures pushBackBuffer == if old(pushBackBuffer) == [] then [] else old(pushBackBuffer)[1..]
    {
      if |pushBackBuffer| > 0 {
        b := Some(pushBackBuffer[0]);
        pushBackBuffer := pushBackBuffer[1..];
        assert Contents() == old(Contents())[1..];
      } else if |incoming| > 0 {
        b := Some(incoming[0]);
        incoming := incoming[1..];
      } else {
        b := None;
      }
    }

    /** The byte joins the end of the buffer, so it is read next only if the buffer was empty. */
    method PushBack(b: byte)
      modifies this
      ensures pushBackBuffer == old(pushBackBuffer) + [b] && incoming == old(incoming)
    {
      pushBackBuffer := pushBackBuffer + [b];
    }
  }

  // ----------------------------------------------------------- specification

  const NON_RTCM: int := -1

  datatype Message = Message(messageType: int, rawData: seq<byte>, timestamp: nat)

  function NonRtcm(s: seq<byte>): Message {
    Message(NON_RTCM, s, 0)
  }

  /** The message types whose timestamp GetMessage reads. */
  predicate IsMsm(t: int) {
    t in {1074, 1084, 1094, 1104, 1114, 1124, 1134, 1077, 1087, 1097, 1107, 1117, 1127, 1137}
  }

  datatype Result = NoMessage | Got(message: Message) | Panic

  /** A valid frame on which GetMessage reads past the end of the slice: bits 48 to 77 are not all there. */
  predicate ShortMsm(f: seq<byte>) {
    ValidFrame(f) && IsMsm(MessageType(f)) && |f| < 10
  }

  /** The header of a frame that getMessageLengthAndType accepts. */
  predicate HeaderOk(s: seq<byte>) {
    |s| >= 5 && s[0] == PREAMBLE && ReservedZero(s) && HeaderLength(s) >= 1
  }

  function Timestamp(f: seq<byte>): nat
    requires |f| >= 10
  {
    Value(BitsOf(f)[48..78])
  }

  function ParsedMessage(f: seq<byte>, length: nat): Result
    requires 7 <= length <= |f|
  {
    if !IsMsm(MessageType(f)) then Got(Message(MessageType(f), f[..length], 0))
    else if |f| < 10 then Panic
    else Got(Message(MessageType(f), f[..length], Timestamp(f)))
  }

  function Parsed(f: seq<byte>): Result {
    if f == [] then NoMessage
    else if HeaderOk(f) then
      if HeaderLength(f) + 6 > |f| || !ParityOk(f) then Got(NonRtcm(f)) else ParsedMessage(f, HeaderLength(f) + 6)
    else if |f| >= 5 && f[0] == PREAMBLE && ReservedZero(f) then Got(Message(MessageType(f), f, 0))
    else Got(NonRtcm(f))
  }

  /** How many bytes precede the first preamble. */
  function JunkLength(s: seq<byte>): (n: nat)
    ensures n <= |s|
  {
    if s == [] || s[0] == PREAMBLE then 0 else 1 + JunkLength(s[1..])
  }

  lemma {:induction false} JunkLengthIsFirstPreamble(s: seq<byte>)
    ensures var n := JunkLength(s); PREAMBLE !in s[..n] && (n < |s| ==> s[n] == PREAMBLE)
  {
    if s != [] && s[0] != PREAMBLE {
      JunkLengthIsFirstPreamble(s[1..]);
      assert s[..JunkLength(s)] == [s[0]] + s[1..][..JunkLength(s) - 1];
    }
  }

  /** The length of the segment that the next fetch takes off a non-empty stream. */
  function SegmentLength(s: seq<byte>): (n: nat)
    requires s != []
    ensures 0 < n <= |s|
  {
    if s[0] != PREAMBLE then JunkLength(s)
    else if |s| < 5 then |s|
    else if !HeaderOk(s) then 5
    else if |s| < HeaderLength(s) + 6 then |s|
    else HeaderLength(s) + 6
  }

  /** What the next fetch makes of a stream. */
  function NextMessage(s: seq<byte>): Result {
    if s == [] then NoMessage
    else
      var seg := s[..SegmentLength(s)];
      if HeaderOk(seg) && |seg| == HeaderLength(seg) + 6 then Parsed(seg) else Got(NonRtcm(seg))
  }

  // ------------------------------------------------------------- the handler

  /** getMessageLengthAndType */
  method GetMessageLengthAndType(bitStream: seq<byte>) returns (length: nat, messageType: int, err: bool)
    ensures err == !HeaderOk(bitStream)
    ensures !err ==> length == HeaderLength(bitStream)
    ensures messageType == if |bitStream| >= 5 && bitStream[0] == PREAMBLE && ReservedZero(bitStream)
                           then MessageType(bitStream) else NON_RTCM
  {
    if |bitStream| < 5 {
      return 0, NON_RTCM, true;
    }
    if bitStream[0] != PREAMBLE {
      return 0, NON_RTCM, true;
    }
    HeaderAsBits(bitStream);
    TypeAsBits(bitStream);
    var sanityCheck := GetBitsAsUint64(bitStream, 8, 6);
    if sanityCheck != 0 {
      return 0, NON_RTCM, true;
    }
    length := GetBitsAsUint64(bitStream, 14, 10);
    messageType := GetBitsAsUint64(bitStream, 24, 12);
    if length == 0 {
      return 0, messageType, true;
    }
    err := false;
  }

  /** CheckCRC; crc24q.Hash is taken to be the CRC-24Q of the C code. */
  method CheckCRC(frame: seq<byte>) returns (err: bool)
    ensures err == (|frame| < 6 || !ParityOk(frame))
  {
    if |frame| < 6 {
      return true;
    }
    var startOfCRC := |frame| - 3;
    var newCRC := RtkCrc24q(frame[..startOfCRC]);
    GoParityTest(frame, newCRC);
    err := Byte2(newCRC) != frame[startOfCRC] || Byte1(newCRC) != frame[startOfCRC + 1]
           || Byte0(newCRC) != frame[startOfCRC + 2];
  }

  /** The numbers of MSM4 and MSM7, from GPS (107) to NavIC (113). */
  predicate MsmNumber(t: int) {
    107 <= t / 10 <= 113 && (t % 10 == 4 || t % 10 == 7)
  }

  /** The bits of the frame have zeros where they are reserved, and leave an empty CRC register empty. */
  ghost predicate ChecksPass(f: seq<byte>)
    requires |f| >= 3
  {
    Value(BitsOf(f)[8..14]) == 0 && Feed(Zeros(24), BitsOf(f)) == Zeros(24)
  }

  /** What GetMessage makes of a slice, in the terms of its bits. */
  ghost predicate Tells(f: seq<byte>, r: Result) {
    if f == [] then r == NoMessage
    else if |f| < 5 || f[0] != 0xD3 || Value(BitsOf(f)[8..14]) != 0 then r == Got(Message(-1, f, 0))
    else
      var length, t := Value(BitsOf(f)[14..24]), Value(BitsOf(f)[24..36]);
      if length == 0 then r == Got(Message(t, f, 0))
      else if length + 6 > |f| || !ChecksPass(f) then r == Got(Message(-1, f, 0))
      else if !MsmNumber(t) then r == Got(Message(t, f[..length + 6], 0))
      else if |f| < 10 then r == Panic
      else r == Got(Message(t, f[..length + 6], Value(BitsOf(f)[48..78])))
  }

  lemma ParsedTells(f: seq<byte>)
    ensures Tells(f, Parsed(f))
  {
    hide Feed, BitsOf, Value, ParityOk, HeaderLength, ReservedZero, MessageType;
    if |f| >= 5 {
      HeaderAsBits(f);
      TypeAsBits(f);
      ParityIsEmptyRegister(f);
      MsmNumbers(MessageType(f));
    }
  }

  lemma MsmNumbers(t: int)
    ensures IsMsm(t) <==> MsmNumber(t)
  {
  }

  method GetMessage(bitStream: seq<byte>) returns (r: Result)
    ensures r == Parsed(bitStream) && Tells(bitStream, r)
  {
    hide Tells, Value, BitsOf, Feed;
    ParsedTells(bitStream);
    if |bitStream| == 0 {
      return NoMessage;
    }
    if bitStream[0] != PREAMBLE {
      return Got(NonRtcm(bitStream));
    }
    var messageLength, messageType, formatError := GetMessageLengthAndType(bitStream);
    if formatError {
      return Got(Message(messageType, bitStream, 0));
    }
    var expectedFrameLength := messageLength + 6;
    if expectedFrameLength > |bitStream| {
      return Got(NonRtcm(bitStream));
    }
    var errorCRC := CheckCRC(bitStream);
    if errorCRC {
      return Got(NonRtcm(bitStream));
    }
    if IsMsm(messageType) {
      if 78 > 8 * |bitStream| {
        return Panic;  // GetBitsAsUint64 indexes past the end of the slice
      }
      var timestamp := GetBitsAsUint64(bitStream, 48, 30);
      return Got(Message(messageType, bitStream[..expectedFrameLength], timestamp));
    }
    return Got(Message(messageType, bitStream[..expectedFrameLength], 0));
  }

  method EatUntilStartOfFrame(pc: ByteChannel) returns (stuff: seq<byte>, err: bool)
    requires |pc.pushBackBuffer| <= 1
    modifies pc
    ensures pc.pushBackBuffer == []
    ensures var s := old(pc.Contents()); var n := JunkLength(s);
            && err == (n == |s|)
            && stuff == (if err then s else s[..n + 1])
            && pc.Contents() == s[|stuff|..]
  {
    ghost var s := pc.Contents();
    stuff := [];
    while true
      invariant |stuff| <= |s| && stuff == s[..|stuff|] && pc.Contents() == s[|stuff|..]
      invariant |stuff| <= JunkLength(s)
      invariant |pc.pushBackBuffer| <= 1 && (stuff != [] ==> pc.pushBackBuffer == [])
      decreases |s| - |stuff|
    {
      var b := pc.GetNextByte();
      match b
      case None =>
        return stuff, true;
      case Some(x) =>
        ghost var k := |stuff|;
        assert s[..k + 1] == s[..k] + [s[k]];
        assert s[k..][1..] == s[k + 1..];
        JunkLengthAt(s, k);
        stuff := stuff + [x];
        if x == PREAMBLE {
          return stuff, false;
        }
    }
  }

  lemma JunkLengthAt(s: seq<byte>, k: nat)
    requires k < |s| && k <= JunkLength(s)
    ensures s[k] == PREAMBLE <==> JunkLength(s) == k
  {
    JunkLengthIsFirstPreamble(s);
    if k < JunkLength(s) {
      assert s[..JunkLength(s)][k] == s[k];
    }
  }

  /** The loops of phases 2 and 3: append up to n bytes to the frame, stopping at the end of input. */
  method AppendBytes(pc: ByteChannel, frame: seq<byte>, n: nat) returns (longer: seq<byte>, err: bool)
    requires pc.pushBackBuffer == []
    modifies pc
    ensures pc.pushBackBuffer == []
    ensures var s := old(pc.Contents());
            && err == (|s| < n)
            && longer == frame + (if err then s else s[..n])
            && pc.Contents() == if err then [] else s[n..]
  {
    ghost var s := pc.Contents();
    longer := frame;
    for i := 0 to n
      invariant i <= |s| && longer == frame + s[..i] && pc.Contents() == s[i..] && pc.pushBackBuffer == []
    {
      var b := pc.GetNextByte();
      match b
      case None =>
        assert s[..i] == s;
        return longer, true;
      case Some(x) =>
        assert s[i..][1..] == s[i + 1..];
        assert s[..i + 1] == s[..i] + [x];
        longer := longer + [x];
    }
    err := false;
  }

  lemma HeaderPrefix(s: seq<byte>, n: nat)
    requires 5 <= n <= |s|
    ensures HeaderOk(s[..n]) == HeaderOk(s) && HeaderLength(s[..n]) == HeaderLength(s)
  {
  }

  /** Nothing was eaten but junk. */
  lemma JunkSegment(s: seq<byte>)
    requires s != [] && s[0] != PREAMBLE
    ensures NextMessage(s) == Got(NonRtcm(s[..JunkLength(s)])) && SegmentLength(s) == JunkLength(s)
  {
  }

  /** The input ends, or the header is bad, within five bytes. */
  lemma ShortSegment(s: seq<byte>)
    requires s != [] && s[0] == PREAMBLE
    ensures |s| < 5 ==> NextMessage(s) == Got(NonRtcm(s)) && SegmentLength(s) == |s|
    ensures |s| >= 5 && !HeaderOk(s[..5]) ==> NextMessage(s) == Got(NonRtcm(s[..5])) && SegmentLength(s) == 5
  {
  }

  /** The header is good, and the input ends within the frame or holds all of it. */
  lemma FrameSegment(s: seq<byte>)
    requires |s| >= 5 && HeaderOk(s[..5])
    ensures var n := HeaderLength(s[..5]) + 6;
            if |s| < n then NextMessage(s) == Got(NonRtcm(s)) && SegmentLength(s) == |s|
            else NextMessage(s) == Parsed(s[..n]) && SegmentLength(s) == n
  {
    HeaderPrefix(s, 5);
    HeaderPrefix(s, SegmentLength(s));
    if |s| < HeaderLength(s) + 6 {
      assert s[..|s|] == s;
    }
  }

  /** More than one byte was eaten: the first is junk, and the last is a preamble unless the input ended. */
  lemma LastEaten(s: seq<byte>, frame: seq<byte>, eatError: bool)
    requires var n := JunkLength(s); eatError == (n == |s|) && frame == if eatError then s else s[..n + 1]
    requires |frame| > 1
    ensures s[0] != PREAMBLE
    ensures frame[|frame| - 1] == PREAMBLE <==> !eatError
    ensures if eatError then s[..JunkLength(s)] == frame else |frame| == JunkLength(s) + 1
  {
    var n := JunkLength(s);
    JunkLengthIsFirstPreamble(s);
    assert s[..n][0] == s[0];
    if eatError {
      assert s[..n][n - 1] == s[n - 1];
    }
  }

  lemma UnreadByte(s: seq<byte>, n: nat)
    requires n < |s|
    ensures [s[n]] + s[n + 1..] == s[n..] && s[..n + 1][..n] == s[..n]
  {
  }

  lemma Split<T>(s: seq<T>, front: seq<T>, back: seq<T>, k: nat)
    requires s == front + back && k <= |back|
    ensures front + back[..k] == s[..|front| + k] && back[k..] == s[|front| + k..]
  {
  }

  method FetchNextMessageFrame(pc: ByteChannel) returns (r: Result)
    requires |pc.pushBackBuffer| <= 1
    modifies pc
    ensures |pc.pushBackBuffer| <= 1
    ensures r == NextMessage(old(pc.Contents()))
    ensures r != NoMessage ==> pc.Contents() == old(pc.Contents())[SegmentLength(old(pc.Contents()))..]
  {
    ghost var s := pc.Contents();
    // phase 1: eat bytes until the start of message frame byte
    var frame, eatError := EatUntilStartOfFrame(pc);
    if eatError && |frame| == 0 {
      return NoMessage;
    }
    if |frame| > 1 {
      LastEaten(s, frame, eatError);
      JunkSegment(s);
      if frame[|frame| - 1] == PREAMBLE {
        UnreadByte(s, JunkLength(s));
        pc.PushBack(PREAMBLE);
        return Got(NonRtcm(frame[..|frame| - 1]));
      }
      return Got(NonRtcm(frame));
    }
    r := FetchFromStartByte(pc, frame, s);
  }

  /** Phases 2 to 4: one byte has been read, the start of message frame byte unless the input is at its end. */
  method FetchFromStartByte(pc: ByteChannel, start: seq<byte>, ghost s: seq<byte>) returns (r: Result)
    requires pc.pushBackBuffer == [] && |start| == 1 && s == start + pc.Contents()
    requires start[0] != PREAMBLE ==> pc.Contents() == []
    modifies pc
    ensures pc.pushBackBuffer == []
    ensures r == NextMessage(s) && pc.Contents() == s[SegmentLength(s)..]
  {
    if start[0] == PREAMBLE {
      ShortSegment(s);
    } else {
      JunkSegment(s);
      assert s == start && s[1..] == [];
    }
    // phase 2: the leader and the first two bytes of the message
    ghost var rest := pc.Contents();
    var frame, endOfInput := AppendBytes(pc, start, 4);
    if endOfInput {
      return Got(NonRtcm(frame));
    }
    Split(s, start, rest, 4);
    r := FetchFromHeader(pc, frame, s);
  }

  /** Phases 3 and 4: the leader and the first two bytes of the message have been read. */
  method FetchFromHeader(pc: ByteChannel, header: seq<byte>, ghost s: seq<byte>) returns (r: Result)
    requires pc.pushBackBuffer == [] && |header| == 5 && s == header + pc.Contents() && s[0] == PREAMBLE
    modifies pc
    ensures pc.pushBackBuffer == []
    ensures r == NextMessage(s) && pc.Contents() == s[SegmentLength(s)..]
  {
    assert s[..5] == header;
    var messageLength, messageType, typeError := GetMessageLengthAndType(header);
    if typeError {
      ShortSegment(s);
      return Got(NonRtcm(header));
    }
    FrameSegment(s);
    // phase 3: the rest of the frame
    ghost var rest := pc.Contents();
    var frame, endOfInput := AppendBytes(pc, header, messageLength + 6 - |header|);
    if endOfInput {
      return Got(NonRtcm(frame));
    }
    Split(s, header, rest, messageLength + 1);
    // phase 4: check the frame and make a message of it
    r := GetMessage(frame);
  }
}
