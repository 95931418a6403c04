/**
 The RTCM 3 frame: preamble, six reserved bits, ten bits of length, the
 embedded message and the 24-bit parity.  The three framers are stated against
 the definitions here.
 */
module Frames {
  import opened Bits
  import opened Crc24q

  datatype Option<T> = None | Some(value: T)

  const PREAMBLE: byte := 0xD3

  /** The ten bits that follow the reserved ones. */
  function HeaderLength(h: seq<byte>): (n: nat)
    requires |h| >= 3
    ensures n <= 1023
  {
    h[1] as int % 4 * 256 + h[2] as int
  }

  predicate ReservedZero(h: seq<byte>)
    requires |h| >= 3
  {
    h[1] as int < 4
  }

  /** The first twelve bits of the embedded message. */
  function MessageType(f: seq<byte>): (t: nat)
    requires |f| >= 5
    ensures t < 4096
  {
    f[3] as int * 16 + f[4] as int / 16
  }

  /** As many bytes as a header at their front announces. */
  predicate IsWhole(f: seq<byte>) {
    |f| >= 6 && f[0] == PREAMBLE && |f| == HeaderLength(f) + 6
  }

  /** A complete frame as RTKLIB and BNC see it: the reserved bits are not looked at. */
  predicate IsFrame(f: seq<byte>) {
    IsWhole(f) && ParityOk(f)
  }

  /** A frame that was damaged on its way, but not in its length. */
  predicate IsDamaged(f: seq<byte>) {
    IsWhole(f) && !ParityOk(f)
  }

  /** A frame as the Go handler wants it: reserved bits zero and something inside. */
  predicate ValidFrame(f: seq<byte>) {
    IsFrame(f) && ReservedZero(f) && HeaderLength(f) >= 1
  }

  function Flatten(ss: seq<seq<byte>>): seq<byte> {
    if ss == [] then [] else ss[0] + Flatten(ss[1..])
  }

  lemma {:induction false} FlattenConcat(a: seq<seq<byte>>, b: seq<seq<byte>>)
    ensures Flatten(a + b) == Flatten(a) + Flatten(b)
  {
    if a == [] {
      assert a + b == b;
    } else {
      assert (a + b)[1..] == a[1..] + b;
      FlattenConcat(a[1..], b);
    }
  }

  // ----------------------------------------------- the same fields as bits

  lemma ByteWeights(b: byte)
    ensures b as int == 16 * ((b >> 4) as int) + (b & 0xF) as int
    ensures (b >> 4) as int == b as int / 16
    ensures (b >> 4) as int == (if b & 0x80 != 0 then 8 else 0) + (if b & 0x40 != 0 then 4 else 0)
                             + (if b & 0x20 != 0 then 2 else 0) + (if b & 0x10 != 0 then 1 else 0)
    ensures (b & 0xF) as int == (if b & 0x08 != 0 then 8 else 0) + (if b & 0x04 != 0 then 4 else 0)
                              + (if b & 0x02 != 0 then 2 else 0) + (if b & 0x01 != 0 then 1 else 0)
  {
  }

  lemma LowTwoBits(b: byte)
    ensures (b & 3) as int == b as int % 4
    ensures (b & 3) as int == (if b & 0x02 != 0 then 2 else 0) + (if b & 0x01 != 0 then 1 else 0)
    ensures b as int < 4 <==>
            b & 0x80 == 0 && b & 0x40 == 0 && b & 0x20 == 0 && b & 0x10 == 0 && b & 0x08 == 0 && b & 0x04 == 0
  {
  }

  lemma Value2(a: bool, b: bool)
    ensures Value([a, b]) == (if a then 2 else 0) + (if b then 1 else 0)
  {
    ValuePush([], a);
    ValuePush([a], b);
    assert [] + [a] == [a] && [a] + [b] == [a, b];
  }

  lemma Value4(a: bool, b: bool, c: bool, d: bool)
    ensures Value([a, b, c, d]) ==
            (if a then 8 else 0) + (if b then 4 else 0) + (if c then 2 else 0) + (if d then 1 else 0)
  {
    Value2(a, b);
    ValuePush([a, b], c);
    ValuePush([a, b, c], d);
    assert [a, b] + [c] == [a, b, c] && [a, b, c] + [d] == [a, b, c, d];
  }

  lemma HighNibble(b: byte)
    ensures Value(ByteBits(b)[..4]) == (b >> 4) as int == b as int / 16
  {
    ByteWeights(b);
    Value4(TestBit(b, 0), TestBit(b, 1), TestBit(b, 2), TestBit(b, 3));
    assert ByteBits(b)[..4] == [TestBit(b, 0), TestBit(b, 1), TestBit(b, 2), TestBit(b, 3)];
  }

  lemma LowNibble(b: byte)
    ensures Value(ByteBits(b)[4..]) == (b & 0xF) as int
  {
    ByteWeights(b);
    Value4(TestBit(b, 4), TestBit(b, 5), TestBit(b, 6), TestBit(b, 7));
    assert ByteBits(b)[4..] == [TestBit(b, 4), TestBit(b, 5), TestBit(b, 6), TestBit(b, 7)];
  }

  lemma ByteValue(b: byte)
    ensures Value(ByteBits(b)) == b as int
  {
    HighNibble(b);
    LowNibble(b);
    ByteWeights(b);
    assert ByteBits(b) == ByteBits(b)[..4] + ByteBits(b)[4..];
    ValueConcat(ByteBits(b)[..4], ByteBits(b)[4..]);
    assert Pow2(4) == 16;
  }

  lemma HeaderByte(b: byte)
    ensures Value(ByteBits(b)[6..]) == b as int % 4
    ensures Value(ByteBits(b)[..6]) == 0 <==> b as int < 4
  {
    LowTwoBits(b);
    Value2(TestBit(b, 6), TestBit(b, 7));
    assert ByteBits(b)[6..] == [TestBit(b, 6), TestBit(b, 7)];
    Value4(TestBit(b, 0), TestBit(b, 1), TestBit(b, 2), TestBit(b, 3));
    Value2(TestBit(b, 4), TestBit(b, 5));
    var hi, lo := [TestBit(b, 0), TestBit(b, 1), TestBit(b, 2), TestBit(b, 3)], [TestBit(b, 4), TestBit(b, 5)];
    assert ByteBits(b)[..6] == hi + lo;
    ValueConcat(hi, lo);
    assert Pow2(2) == 4;
  }

  lemma BitsOfOne(f: seq<byte>, k: nat)
    requires k < |f|
    ensures BitsOf(f)[8 * k..8 * k + 8] == ByteBits(f[k])
  {
    BitsOfSlice(f, k, k + 1);
    assert f[k..k + 1] == [f[k]];
    BitsOfByte(f[k]);
  }

  /** The six reserved bits and the ten length bits, as the bit readers get them. */
  lemma HeaderAsBits(f: seq<byte>)
    requires |f| >= 3
    ensures Value(BitsOf(f)[8..14]) == 0 <==> ReservedZero(f)
    ensures Value(BitsOf(f)[14..24]) == HeaderLength(f)
  {
    var s := BitsOf(f);
    BitsOfOne(f, 1);
    BitsOfOne(f, 2);
    HeaderByte(f[1]);
    ByteValue(f[2]);
    assert s[8..14] == s[8..16][..6];
    assert s[14..24] == s[8..16][6..] + s[16..24];
    ValueConcat(s[8..16][6..], s[16..24]);
    assert Pow2(8) == 256;
  }

  /** The message type, as the bit readers get it. */
  lemma TypeAsBits(f: seq<byte>)
    requires |f| >= 5
    ensures Value(BitsOf(f)[24..36]) == MessageType(f)
  {
    var s := BitsOf(f);
    BitsOfOne(f, 3);
    BitsOfOne(f, 4);
    ByteValue(f[3]);
    HighNibble(f[4]);
    assert s[24..36] == s[24..32] + s[32..40][..4];
    ValueConcat(s[24..32], s[32..40][..4]);
    assert Pow2(4) == 16;
  }

  // --------------------------------------------------- streams of segments

  /**
   What a stream is made of: frames, runs of bytes without a preamble, damaged
   frames, and preambles with four more bytes that show that there is no frame.
   */
  datatype Piece =
    | Frame(bytes: seq<byte>)
    | Junk(bytes: seq<byte>)
    | Damaged(bytes: seq<byte>)
    | BadStart(bytes: seq<byte>)

  function Stream(ps: seq<Piece>): seq<byte> {
    if ps == [] then [] else ps[0].bytes + Stream(ps[1..])
  }

  function FramesOf(ps: seq<Piece>): seq<seq<byte>> {
    if ps == [] then []
    else (if ps[0].Frame? then [ps[0].bytes] else []) + FramesOf(ps[1..])
  }

  /**
   Frames are valid, of a non-zero type; the junk holds no preamble byte, and a
   damaged frame none but its own.
   */
  ghost predicate GoodPiece(p: Piece) {
    match p
    case Frame(f) => ValidFrame(f) && MessageType(f) != 0
    case Junk(j) => PREAMBLE !in j
    case Damaged(f) => IsDamaged(f) && ReservedZero(f) && HeaderLength(f) >= 1 && PREAMBLE !in f[1..]
    case BadStart(_) => false
  }

  ghost predicate GoodPieces(ps: seq<Piece>) {
    forall p :: p in ps ==> GoodPiece(p)
  }
}
