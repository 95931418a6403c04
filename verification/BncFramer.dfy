/**
 BNC's framer: GetMessage and the frame loop of Decode in c/BNC/RTCM3Decoder.cpp,
 with its 2048-byte buffer that slides to the front by memmove and its
 resynchronisation one byte at a time.
 */
module BncFramer {
  import opened Bits
  import opened Crc24q
  import opened Frames

  const BUFFER_SIZE := 2048

  // ------------------------------------------- the resynchronising scan

  /** What the scan does at the head of what is left: wait for more, drop one byte, or take a frame. */
  datatype Look = Stop | Drop | Take(n: nat)

  function LookAt(s: seq<byte>): Look {
    if |s| < 3 then Stop
    else if s[0] != PREAMBLE then Drop
    else if |s| < HeaderLength(s) + 6 then Stop
    else if ParityOk(s[..HeaderLength(s) + 6]) then Take(HeaderLength(s) + 6)
    else Drop
  }

  lemma LookBounds(s: seq<byte>)
    ensures LookAt(s).Drop? ==> |s| >= 3
    ensures LookAt(s).Take? ==> 6 <= LookAt(s).n <= |s| && IsFrame(s[..LookAt(s).n])
    ensures LookAt(s).Stop? ==> |s| <= 1028
  {
  }

  /** A decision once taken is not changed by what arrives later. */
  lemma LookIsStable(a: seq<byte>, b: seq<byte>)
    ensures LookAt(a).Stop? || LookAt(a + b) == LookAt(a)
  {
    if |a| >= 3 && HeaderLength(a) + 6 <= |a| {
      assert (a + b)[..HeaderLength(a) + 6] == a[..HeaderLength(a) + 6];
    }
  }

  /** The frames that one scan of the whole of s extracts. */
  function FramesIn(s: seq<byte>): seq<seq<byte>>
    decreases |s|
  {
    LookBounds(s);
    match LookAt(s)
    case Stop => []
    case Drop => FramesIn(s[1..])
    case Take(n) => [s[..n]] + FramesIn(s[n..])
  }

  /** What that scan leaves unread. */
  function Residue(s: seq<byte>): seq<byte>
    decreases |s|
  {
    LookBounds(s);
    match LookAt(s)
    case Stop => s
    case Drop => Residue(s[1..])
    case Take(n) => Residue(s[n..])
  }

  /** The header that GetMessage takes for a message as soon as its three bytes are in. */
  predicate ZeroHeader(s: seq<byte>) {
    |s| >= 3 && s[0] == PREAMBLE && HeaderLength(s) == 0
  }

  /** No zero-length header where the scan looks, and no frame of type 0. */
  predicate Benign(s: seq<byte>)
    decreases |s|
  {
    LookBounds(s);
    && !ZeroHeader(s)
    && match LookAt(s)
       case Stop => true
       case Drop => Benign(s[1..])
       case Take(n) => MessageType(s[..n]) != 0 && Benign(s[n..])
  }

  /** Nothing begins at the head of s: there is no preamble, or it announces a whole frame with wrong parity. */
  predicate NothingBegins(s: seq<byte>) {
    |s| >= 3 && (s[0] != PREAMBLE || (|s| >= HeaderLength(s) + 6 && IsDamaged(s[..HeaderLength(s) + 6])))
  }

  /**
   The scan looks at every byte: it takes the first frame before which nothing
   begins, and goes on right behind it.
   */
  lemma {:induction false} FirstFrameIsTaken(s: seq<byte>, p: nat, n: nat)
    requires p + n <= |s| && IsFrame(s[p..p + n]) && forall q :: 0 <= q < p ==> NothingBegins(s[q..])
    ensures FramesIn(s) == [s[p..p + n]] + FramesIn(s[p + n..]) && Residue(s) == Residue(s[p + n..])
  {
    hide FramesIn, Residue, NothingBegins, IsFrame;
    if p == 0 {
      assert s[0..n] == s[..n];
      TakesOne(s, n);
    } else {
      assert s[0..] == s && NothingBegins(s[0..]);
      DropsOne(s);
      TailSlices(s, p, n);
      NothingBeginsInTail(s, p);
      FirstFrameIsTaken(s[1..], p - 1, n);
    }
  }

  lemma TakesOne(s: seq<byte>, n: nat)
    requires n <= |s| && IsFrame(s[..n])
    ensures FramesIn(s) == [s[..n]] + FramesIn(s[n..]) && Residue(s) == Residue(s[n..])
  {
    assert HeaderLength(s[..n]) == HeaderLength(s);
    hide ParityOk, HeaderLength;
    assert LookAt(s) == Take(n);
  }

  lemma TailSlices(s: seq<byte>, p: nat, n: nat)
    requires 1 <= p && p + n <= |s|
    ensures s[1..][p - 1..p - 1 + n] == s[p..p + n] && s[1..][p - 1 + n..] == s[p + n..]
  {
  }

  lemma NothingBeginsInTail(s: seq<byte>, p: nat)
    requires 1 <= p <= |s| && forall q :: 0 <= q < p ==> NothingBegins(s[q..])
    ensures forall q :: 0 <= q < p - 1 ==> NothingBegins(s[1..][q..])
  {
    hide NothingBegins;
    forall q | 0 <= q < p - 1
      ensures NothingBegins(s[1..][q..])
    {
      assert s[1..][q..] == s[q + 1..];
    }
  }

  lemma DropsOne(s: seq<byte>)
    requires NothingBegins(s)
    ensures FramesIn(s) == FramesIn(s[1..]) && Residue(s) == Residue(s[1..])
  {
    assert LookAt(s).Drop?;
  }

  /** It finds nothing, and stops where a preamble announces more bytes than there are, or before the last two bytes. */
  lemma {:induction false} NoFrameIsTaken(s: seq<byte>, p: nat)
    requires p <= |s| && forall q :: 0 <= q < p ==> NothingBegins(s[q..])
    requires |s| - p < 3 || (s[p] == PREAMBLE && |s| - p < HeaderLength(s[p..]) + 6)
    ensures FramesIn(s) == [] && Residue(s) == s[p..]
  {
    if p == 0 {
      assert s[0..] == s;
    } else {
      hide FramesIn, Residue, NothingBegins, HeaderLength;
      assert s[0..] == s && NothingBegins(s[0..]);
      DropsOne(s);
      TailSlices(s, p, 0);
      NothingBeginsInTail(s, p);
      NoFrameIsTaken(s[1..], p - 1);
    }
  }

  /** A scan may be interrupted anywhere and resumed with what it left. */
  lemma {:induction false} ScanResumes(a: seq<byte>, b: seq<byte>)
    ensures FramesIn(a + b) == FramesIn(a) + FramesIn(Residue(a) + b)
    decreases |a|
  {
    LookBounds(a);
    LookIsStable(a, b);
    hide LookAt, Residue, IsFrame;
    match LookAt(a)
    case Stop =>
      ResidueStep(a);
    case Drop =>
      assert (a + b)[1..] == a[1..] + b;
      ResidueStep(a);
      ScanResumes(a[1..], b);
    case Take(n) =>
      assert (a + b)[n..] == a[n..] + b && (a + b)[..n] == a[..n];
      ResidueStep(a);
      ScanResumes(a[n..], b);
  }

  lemma ResidueStep(s: seq<byte>)
    ensures match LookAt(s)
            case Stop => Residue(s) == s
            case Drop => s != [] && Residue(s) == Residue(s[1..])
            case Take(n) => n <= |s| && Residue(s) == Residue(s[n..])
  {
  }

  lemma {:induction false} ResidueResumes(a: seq<byte>, b: seq<byte>)
    ensures Residue(a + b) == Residue(Residue(a) + b)
    decreases |a|
  {
    LookBounds(a);
    LookIsStable(a, b);
    hide LookAt;
    match LookAt(a)
    case Stop =>
    case Drop =>
      assert (a + b)[1..] == a[1..] + b;
      ResidueResumes(a[1..], b);
    case Take(n) =>
      assert (a + b)[n..] == a[n..] + b;
      ResidueResumes(a[n..], b);
  }

  lemma {:induction false} BenignSplits(a: seq<byte>, b: seq<byte>)
    requires Benign(a + b)
    ensures Benign(a) && Benign(Residue(a) + b)
    decreases |a|
  {
    LookBounds(a);
    LookIsStable(a, b);
    ZeroHeaderGrows(a, b);
    hide LookAt, HeaderLength, ParityOk, ZeroHeader;
    match LookAt(a)
    case Stop =>
    case Drop =>
      assert (a + b)[1..] == a[1..] + b;
      BenignSplits(a[1..], b);
    case Take(n) =>
      assert (a + b)[n..] == a[n..] + b && (a + b)[..n] == a[..n];
      BenignSplits(a[n..], b);
  }

  lemma ZeroHeaderGrows(a: seq<byte>, b: seq<byte>)
    ensures ZeroHeader(a) ==> ZeroHeader(a + b)
  {
  }

  lemma {:induction false} ResidueStops(s: seq<byte>)
    ensures LookAt(Residue(s)).Stop? && |Residue(s)| <= 1028
    decreases |s|
  {
    LookBounds(s);
    hide LookAt;
    match LookAt(s)
    case Stop =>
    case Drop => ResidueStops(s[1..]);
    case Take(n) => ResidueStops(s[n..]);
  }

  /** How many bytes the scan drops before it stops or takes a frame. */
  function Dropped(s: seq<byte>): (k: nat)
    ensures k <= |s|
    decreases |s|
  {
    if LookAt(s).Drop? then LookBounds(s); 1 + Dropped(s[1..]) else 0
  }

  lemma {:induction false} DropsAreOneScan(s: seq<byte>)
    ensures var r := s[Dropped(s)..];
            && !LookAt(r).Drop? && FramesIn(s) == FramesIn(r) && Residue(s) == Residue(r)
            && (Benign(s) ==> Benign(r))
    decreases |s|
  {
    LookBounds(s);
    hide LookAt, ZeroHeader;
    if LookAt(s).Drop? {
      DropsAreOneScan(s[1..]);
      assert s[Dropped(s)..] == s[1..][Dropped(s[1..])..];
    } else {
      assert s[Dropped(s)..] == s;
    }
  }

  // ------------------------------------------------------------ GetMessage

  /** The decoder between two calls of GetMessage. */
  datatype Decoder = Decoder(message: seq<byte>, size: nat, skip: nat)

  predicate Valid(d: Decoder) {
    |d.message| == BUFFER_SIZE && d.skip <= d.size <= BUFFER_SIZE
  }

  /** The bytes it has still to look at. */
  function Pending(d: Decoder): seq<byte>
    requires Valid(d)
  {
    d.message[d.skip..d.size]
  }

  /** The bytes from m on moved to the front; what lies behind them stays as it is. */
  function Moved(message: seq<byte>, size: nat, m: nat): (r: seq<byte>)
    requires m <= size <= |message|
    ensures |r| == |message| && r[..size - m] == message[m..size]
  {
    if 0 < m < size then message[m..size] + message[size - m..] else message
  }

  function Id(message: seq<byte>): nat
    requires |message| >= 5
  {
    message[3] as int * 16 + message[4] as int / 16
  }

  /** A call: the state it leaves, what it returns, and _BlockSize when that is not 0. */
  datatype Call = Call(next: Decoder, need: nat, id: nat, block: nat)

  function Next(d: Decoder): (c: Call)
    requires Valid(d)
    ensures Valid(c.next) && c.block <= BUFFER_SIZE
  {
    var s := Pending(d);
    var m := d.skip + Dropped(s);
    var rest := s[Dropped(s)..];
    var message, size := Moved(d.message, d.size, m), d.size - m;
    LookBounds(rest);
    if LookAt(rest).Take? then
      Call(Decoder(message, size, LookAt(rest).n), 0, Id(message), LookAt(rest).n)
    else if |rest| < 3 then
      Call(Decoder(message, size, 0), 3, 0, 0)
    else if HeaderLength(rest) != 0 then
      Call(Decoder(message, size, 0), HeaderLength(rest), 0, HeaderLength(rest))
    else
      Call(Decoder(message, size, 0), 0, Id(message), 0)
  }

  class RTCM3Decoder {
    const message: array<byte>
    var messageSize: nat
    var needBytes: nat
    var skipBytes: nat
    var blockSize: nat

    constructor ()
      ensures IsValid() && message.Length == 2048 && Abs().size == 0 && Abs().skip == 0 && fresh(message)
    {
      message := new byte[BUFFER_SIZE];
      messageSize := 0;
      needBytes := 0;
      skipBytes := 0;
      blockSize := 0;
    }

    ghost predicate IsValid()
      reads this, message
    {
      message.Length == BUFFER_SIZE && Valid(Abs())
    }

    ghost function Abs(): Decoder
      reads this, message
    {
      Decoder(message[..], messageSize, skipBytes)
    }

    method MemMove(m: nat, e: nat)
      requires m <= e <= message.Length
      modifies message
      ensures message[..] == Moved(old(message[..]), e, m)
    {
      if 0 < m < e {
        forall j | 0 <= j < e - m {
          message[j] := message[m + j];
        }
      }
    }

    /** The comparison of the three bytes behind a block of n bytes with its CRC. */
    method ParityMatches(m: nat, n: nat) returns (ok: bool)
      requires m + n + 3 <= message.Length
      ensures ok == ParityOk(message[..][m..m + n + 3])
    {
      var crc := CRC24(message[m..m + n]);
      var parity :=
        ((message[m + n] as bv32) << 16) | ((message[m + n + 1] as bv32) << 8) | (message[m + n + 2] as bv32);
      ghost var f := message[..][m..m + n + 3];
      assert f[..|f| - 3] == message[m..m + n];
      BncParityTest(f, parity);
      ok := parity == crc;
    }

    method GetMessage() returns (id: nat)
      requires IsValid()
      modifies this, message
      ensures IsValid()
      ensures var c := Next(old(Abs()));
              Abs() == c.next && id == c.id && needBytes == c.need && (id != 0 ==> blockSize == c.block)
    {
      hide Next, LookAt, Dropped, Moved, HeaderLength;
      ghost var d := Abs();
      var m := Scan();
      NextUnfolds(d);
      MemMove(m, messageSize);
      messageSize := messageSize - m;
      id := if needBytes == 0 then message[3] as int * 16 + message[4] as int / 16 else 0;
    }

    /** The loop of GetMessage: m is where the scan stopped. */
    method Scan() returns (m: nat)
      requires IsValid()
      modifies this`needBytes, this`skipBytes, this`blockSize
      ensures var d := old(Abs()); var s := Pending(d); var rest := s[Dropped(s)..];
              && m == d.skip + Dropped(s)
              && match LookAt(rest)
                 case Take(n) => blockSize == n && skipBytes == n && needBytes == 0
                 case _ =>
                   && skipBytes == 0
                   && if |rest| < 3 then needBytes == 3 else needBytes == HeaderLength(rest) == blockSize
    {
      hide LookAt, Dropped, ParityOk, HeaderLength, BlockLength;
      ghost var buffer, s := message[..], Pending(Abs());
      m := skipBytes;
      var e := messageSize;
      ghost var rest := s;
      needBytes, skipBytes := 0, 0;
      while e - m >= 3
        invariant old(skipBytes) <= m <= e <= |buffer| && skipBytes == needBytes == 0
        invariant rest == buffer[m..e]
        invariant Dropped(s) == (m - old(skipBytes)) + Dropped(rest)
      {
        Decide(rest);
        if message[m] == PREAMBLE {
          blockSize := BlockLength(message[m + 1], message[m + 2]);
          if e - m >= blockSize + 6 {
            var ok := ParityMatches(m, blockSize + 3);
            SlicePrefix(buffer, m, e, blockSize + 6);
            if ok {
              blockSize := blockSize + 6;
              skipBytes := blockSize;
              break;
            }
            m := m + 1;
          } else {
            needBytes := blockSize;
            break;
          }
        } else {
          m := m + 1;
        }
        SliceTail(buffer, m - 1, e);
        rest := rest[1..];
      }
      SliceSuffix(buffer, old(skipBytes), m, e);
      if e - m < 3 {
        ShortLook(rest);
        needBytes := 3;
      }
    }
  }

  lemma SliceTail(s: seq<byte>, m: nat, e: nat)
    requires m < e <= |s|
    ensures s[m..e][1..] == s[m + 1..e]
  {
  }

  lemma SlicePrefix(s: seq<byte>, m: nat, e: nat, n: nat)
    requires m + n <= e <= |s|
    ensures s[m..e][..n] == s[m..m + n]
  {
  }

  lemma SliceSuffix(s: seq<byte>, lo: nat, m: nat, e: nat)
    requires lo <= m <= e <= |s|
    ensures s[lo..e][m - lo..] == s[m..e]
  {
  }

  lemma NextUnfolds(d: Decoder)
    requires Valid(d)
    ensures var s := Pending(d); var m := d.skip + Dropped(s); var rest := s[Dropped(s)..];
            var message, size, c := Moved(d.message, d.size, m), d.size - m, Next(d);
            if LookAt(rest).Take? then
              c == Call(Decoder(message, size, LookAt(rest).n), 0, Id(message), LookAt(rest).n)
            else if |rest| < 3 then c == Call(Decoder(message, size, 0), 3, 0, 0)
            else
              && c.next == Decoder(message, size, 0) && c.need == c.block == HeaderLength(rest)
              && c.id == if HeaderLength(rest) == 0 then Id(message) else 0
  {
    hide LookAt, Dropped, Moved;
  }

  /** ((m[1] & 3) << 8) | m[2] */
  function BlockLength(b: byte, c: byte): nat {
    (b & 3) as int * 256 + c as int
  }

  lemma BlockLengthIsHeaderLength(s: seq<byte>)
    requires |s| >= 3
    ensures BlockLength(s[1], s[2]) == HeaderLength(s)
  {
    LowTwoBits(s[1]);
  }

  lemma ShortLook(s: seq<byte>)
    requires |s| < 3
    ensures LookAt(s).Stop? && Dropped(s) == 0
  {
  }

  /** One round of the loop in GetMessage. */
  lemma Decide(s: seq<byte>)
    requires |s| >= 3
    ensures BlockLength(s[1], s[2]) == HeaderLength(s)
    ensures var n := HeaderLength(s) + 6;
            if s[0] != PREAMBLE then LookAt(s).Drop?
            else if |s| < n then LookAt(s).Stop?
            else LookAt(s) == if ParityOk(s[..n]) then Take(n) else Drop
    ensures Dropped(s) == if LookAt(s).Drop? then 1 + Dropped(s[1..]) else 0
  {
    hide ParityOk, BlockLength, HeaderLength;
    BlockLengthIsHeaderLength(s);
  }
}
