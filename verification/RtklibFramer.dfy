/**
 RTKLIB's framer: input_rtcm3 of c/rtklib/rtcm.c, a state machine fed one byte
 at a time.
 */
module RtklibFramer {
  import opened Bits
  import opened BitFields
  import opened Crc24q
  import opened Frames

  /** What one byte does: the bytes now held, and the message handed to the decoder, if any. */
  datatype Fed = Fed(held: seq<byte>, message: Option<seq<byte>>)

  /** The bytes held between two calls: none, or the beginning of a frame that is still incomplete. */
  predicate Holding(held: seq<byte>) {
    || held == []
    || (held[0] == PREAMBLE && (|held| < 3 || |held| < HeaderLength(held) + 6))
  }

  function RtkStep(held: seq<byte>, data: byte): Fed {
    if held == [] then Fed(if data == PREAMBLE then [data] else [], None)
    else
      var now := held + [data];
      if |now| < 3 || |now| < HeaderLength(now) + 6 then Fed(now, None)
      else if ParityOk(now) then Fed([], Some(now))
      else Fed([], None)
  }

  lemma StepHolds(held: seq<byte>, data: byte)
    requires Holding(held)
    ensures Holding(RtkStep(held, data).held)
    ensures RtkStep(held, data).message.Some? ==> IsFrame(RtkStep(held, data).message.value)
  {
  }

  lemma HeaderKept(held: seq<byte>, data: byte)
    ensures |held| >= 3 ==> HeaderLength(held + [data]) == HeaderLength(held)
  {
  }

  /** The fields of rtcm_t that the framer uses; len is the length without parity, once the header is in. */
  class Rtcm {
    var nbyte: nat
    var len: nat
    const buff: array<byte>

    constructor ()
      ensures Valid() && Held() == [] && fresh(buff)
    {
      nbyte := 0;
      len := 0;
      buff := new byte[1200];
    }

    ghost predicate Valid()
      reads this, buff
    {
      && buff.Length == 1200
      && nbyte <= 1028
      && Holding(Held())
      && (nbyte >= 3 ==> len == HeaderLength(Held()) + 3)
    }

    ghost function Held(): seq<byte>
      requires nbyte <= buff.Length
      reads this, buff
    {
      buff[..nbyte]
    }

    /** The message handed to decode_rtcm3 is the first len + 3 bytes of the buffer. */
    method InputRtcm3(data: byte) returns (message: Option<seq<byte>>)
      requires Valid()
      modifies this, buff
      ensures Valid()
      ensures Fed(Held(), message) == RtkStep(old(Held()), data)
    {
      hide Value, Crc, ParityOk, Uint24, HeaderLength;
      ghost var held := Held();
      StepHolds(held, data);
      HeaderKept(held, data);
      if nbyte == 0 {
        if data != PREAMBLE {
          return None;
        }
        buff[nbyte] := data;
        nbyte := nbyte + 1;
        assert Held() == [data];
        return None;
      }
      buff[nbyte] := data;
      nbyte := nbyte + 1;
      ghost var now := held + [data];
      assert buff[..nbyte] == now;
      if nbyte == 3 {
        HeaderInBuffer(buff[..], now);
        len := GetBitu(buff, 14, 10);
        len := len + 3;
      }
      if nbyte < 3 || nbyte < len + 3 {
        return None;
      }
      nbyte := 0;
      ParityInBuffer(buff[..], now, len);
      var parity := RtkCrc24q(buff[..len]);
      var received := GetBitu(buff, len * 8, 24);
      if Uint24(parity) != received {
        return None;
      }
      return Some(buff[..len + 3]);
    }
  }

  lemma HeaderInBuffer(buff: seq<byte>, f: seq<byte>)
    requires 3 == |f| <= |buff| && buff[..3] == f
    ensures Value(BitsOf(buff)[14..24]) == HeaderLength(f)
  {
    HeaderAsBits(buff);
    assert f[1] == buff[1] && f[2] == buff[2];
  }

  lemma ParityInBuffer(buff: seq<byte>, f: seq<byte>, len: nat)
    requires |f| == len + 3 <= |buff| && buff[..len + 3] == f
    ensures buff[..len] == f[..len]
    ensures ParityOk(f) <==> Value(BitsOf(buff)[len * 8..len * 8 + 24]) == Uint24(Crc(buff[..len]))
  {
    hide Value, Crc, ParityOk, Uint24;
    RtklibParityTest(f);
    BitsOfSlice(buff, 0, len + 3);
    assert BitsOf(buff)[8 * 0..8 * (len + 3)] == BitsOf(f);
    assert BitsOf(f)[8 * len..8 * (len + 3)] == BitsOf(buff)[len * 8..len * 8 + 24];
    assert buff[..len] == f[..len];
  }

  // ------------------------------------------------------------- whole runs

  /** What a run of bytes leaves held, and the messages it delivered. */
  datatype RtkRun = RtkRun(held: seq<byte>, messages: seq<seq<byte>>)

  function Delivered(m: Option<seq<byte>>): seq<seq<byte>> {
    if m.None? then [] else [m.value]
  }

  function RunFrom(held: seq<byte>, s: seq<byte>): RtkRun
    decreases |s|
  {
    if s == [] then RtkRun(held, [])
    else
      var step := RtkStep(held, s[0]);
      var rest := RunFrom(step.held, s[1..]);
      RtkRun(rest.held, Delivered(step.message) + rest.messages)
  }

  lemma {:induction false} RunConcat(held: seq<byte>, a: seq<byte>, b: seq<byte>)
    ensures RunFrom(held, a + b) ==
            RtkRun(RunFrom(RunFrom(held, a).held, b).held,
                   RunFrom(held, a).messages + RunFrom(RunFrom(held, a).held, b).messages)
    decreases |a|
  {
    hide RtkStep;
    if a == [] {
      assert a + b == b;
    } else {
      assert (a + b)[1..] == a[1..] + b;
      RunConcat(RtkStep(held, a[0]).held, a[1..], b);
    }
  }

  /** A file read to its end: every byte goes through InputRtcm3. */
  method InputFile(rtcm: Rtcm, file: seq<byte>) returns (messages: seq<seq<byte>>)
    requires rtcm.Valid()
    modifies rtcm, rtcm.buff
    ensures rtcm.Valid()
    ensures RtkRun(rtcm.Held(), messages) == RunFrom(old(rtcm.Held()), file)
  {
    hide RtkStep, Holding;
    ghost var start := rtcm.Held();
    messages := [];
    assert file[..0] == [];
    for i := 0 to |file|
      invariant rtcm.Valid()
      invariant RtkRun(rtcm.Held(), messages) == RunFrom(start, file[..i])
    {
      ghost var held := rtcm.Held();
      var message := rtcm.InputRtcm3(file[i]);
      OneMore(start, file, i, held);
      if message.Some? {
        messages := messages + [message.value];
      }
    }
    assert file[..|file|] == file;
  }

  lemma OneMore(start: seq<byte>, s: seq<byte>, i: nat, held: seq<byte>)
    requires i < |s| && RunFrom(start, s[..i]).held == held
    ensures RunFrom(start, s[..i + 1]).held == RtkStep(held, s[i]).held
    ensures RunFrom(start, s[..i + 1]).messages ==
            RunFrom(start, s[..i]).messages + Delivered(RtkStep(held, s[i]).message)
  {
    hide RtkStep;
    assert s[..i + 1] == s[..i] + [s[i]];
    RunConcat(start, s[..i], [s[i]]);
    assert [s[i]][1..] == [];
  }

  /** Everything delivered, whatever the input, is a complete frame with matching parity. */
  lemma {:induction false} DeliversOnlyFrames(held: seq<byte>, s: seq<byte>)
    requires Holding(held)
    ensures Holding(RunFrom(held, s).held)
    ensures forall k :: 0 <= k < |RunFrom(held, s).messages| ==> IsFrame(RunFrom(held, s).messages[k])
    decreases |s|
  {
    hide RtkStep, IsFrame, Holding;
    if s != [] {
      StepHolds(held, s[0]);
      DeliversOnlyFrames(RtkStep(held, s[0]).held, s[1..]);
    }
  }

  /** From idle, the first n bytes of a frame, damaged or not, are held, and nothing is delivered. */
  lemma {:induction false} FramePrefixIsHeld(f: seq<byte>, n: nat)
    requires IsWhole(f) && n < |f|
    ensures RunFrom([], f[..n]) == RtkRun(f[..n], [])
  {
    if n > 0 {
      FramePrefixIsHeld(f, n - 1);
      assert f[..n] == f[..n - 1] + [f[n - 1]];
      RunConcat([], f[..n - 1], [f[n - 1]]);
      if n >= 3 {
        assert HeaderLength(f[..n]) == HeaderLength(f);
      }
    }
  }

  /** A frame fed to the idle machine is delivered, whole, by its last byte and not before. */
  lemma FrameDelivered(f: seq<byte>)
    requires IsFrame(f)
    ensures RunFrom([], f) == RtkRun([], [f])
    ensures forall n :: 0 <= n < |f| ==> RunFrom([], f[..n]) == RtkRun(f[..n], [])
  {
    hide RunFrom, ParityOk;
    forall n | 0 <= n < |f|
      ensures RunFrom([], f[..n]) == RtkRun(f[..n], [])
    {
      FramePrefixIsHeld(f, n);
    }
    var init, last := f[..|f| - 1], f[|f| - 1];
    assert f == init + [last];
    RunConcat([], init, [last]);
    LastByte(init, last);
  }

  lemma LastByte(held: seq<byte>, data: byte)
    requires IsFrame(held + [data])
    ensures RunFrom(held, [data]) == RtkRun([], [held + [data]])
  {
  }

  /**
   A damaged frame is dropped, whole, by its last byte, and the machine is idle
   again: whatever follows is received as if the frame had not been there.
   */
  lemma DamagedDropped(f: seq<byte>, rest: seq<byte>)
    requires IsDamaged(f)
    ensures RunFrom([], f) == RtkRun([], [])
    ensures RunFrom([], f + rest) == RunFrom([], rest)
  {
    hide RunFrom, ParityOk;
    var init, last := f[..|f| - 1], f[|f| - 1];
    FramePrefixIsHeld(f, |f| - 1);
    assert f == init + [last];
    RunConcat([], init, [last]);
    LastBadByte(init, last);
    RunConcat([], f, rest);
  }

  lemma LastBadByte(held: seq<byte>, data: byte)
    requires IsDamaged(held + [data])
    ensures RunFrom(held, [data]) == RtkRun([], [])
  {
  }

  lemma {:induction false} JunkIgnored(j: seq<byte>)
    requires PREAMBLE !in j
    ensures RunFrom([], j) == RtkRun([], [])
  {
    if j != [] {
      assert j[0] in j;
      JunkIgnored(j[1..]);
    }
  }
}
