/**
 Station coordinates, message types 1005 and 1006: RTKLIB's encoder
 (c/rtklib/rtcm3e.c) and decoder (c/rtklib/rtcm3.c) and the Go decoders
 (rtcm/type1005/message.go, rtcm/type1006/message.go).  Lengths are in metres,
 with real arithmetic for double.
 */
module Station {
  import opened Bits
  import opened BitFields
  import opened Frames
  import opened Layout
  import opened MsmDecode

  /** rtcm->staid, rtcm->sta.pos, and rtcm->sta.hgt for a message of type 1006. */
  datatype Arp = Arp(staid: uint32, x: real, y: real, z: real, hgt: Option<real>)

  /** A coordinate as the number set38bits takes, and as the field that holds it. */
  function Units(metres: real): int {
    (metres / 0.0001).Floor
  }

  predicate InRange38(metres: real) {
    -0x20_0000_0000 as real <= metres / 0.0001 < 0x20_0000_0000 as real
  }

  /** The antenna height field; a height it cannot hold is sent as 0. */
  function HeightUnits(hgt: real): (n: nat)
    ensures n < 0x1_0000
  {
    if 0.0 <= hgt <= 6.5535 then (hgt / 0.0001 + 0.5).Floor else 0
  }

  function TypeOf(a: Arp): nat {
    if a.hgt.Some? then 1006 else 1005
  }

  /** The bits of the message up to the first coordinate. */
  function LeadBits(a: Arp): (w: bits)
    ensures |w| == 34
  {
    ToBits(TypeOf(a), 12) + ToBits(a.staid, 12) + ToBits(0, 6)
    + ToBits(1, 1) + ToBits(1, 1) + ToBits(0, 1) + ToBits(0, 1)
  }

  function CoordinateBits(a: Arp): (w: bits)
    ensures |w| == 118
  {
    ToBits(Units(a.x), 38) + ToBits(1, 1) + ToBits(0, 1)
    + ToBits(Units(a.y), 38) + ToBits(0, 2) + ToBits(Units(a.z), 38)
  }

  function HeightBits(a: Arp): bits {
    if a.hgt.Some? then ToBits(HeightUnits(a.hgt.value), 16) else []
  }

  function ArpBits(a: Arp): (w: bits)
    ensures |w| == if a.hgt.Some? then 168 else 152
  {
    LeadBits(a) + CoordinateBits(a) + HeightBits(a)
  }

  // -------------------------------------------------------------- encoding

  /** set38bits(buff,i,value); i+=38; */
  method PutWide(buff: array<byte>, i: nat, metres: real, ghost s: bits, ghost start: nat, ghost w: bits)
    returns (next: nat, ghost w': bits)
    requires InRange38(metres) && i + 38 <= 8 * buff.Length == |s|
    requires i == start + |w| && BitsOf(buff[..]) == Overwrite(s, start, w)
    modifies buff
    ensures next == i + 38 == start + |w'| && w' == w + ToBits(Units(metres), 38)
    ensures BitsOf(buff[..]) == Overwrite(s, start, w')
  {
    hide BitsOf, ToBits;
    OverwriteTwice(s, start, w, ToBits(Units(metres), 38));
    Set38Bits(buff, i, metres / 0.0001);
    return i + 38, w + ToBits(Units(metres), 38);
  }

  /** What encode_type1005 and encode_type1006 have in common. */
  method PutArp(buff: array<byte>, a: Arp) returns (i: nat)
    requires buff.Length == 1200 && InRange38(a.x) && InRange38(a.y) && InRange38(a.z)
    modifies buff
    ensures i == 24 + 34 + 118
    ensures BitsOf(buff[..]) == Overwrite(old(BitsOf(buff[..])), 24, LeadBits(a) + CoordinateBits(a))
  {
    hide BitsOf, ToBits, Units;
    ghost var s, w := BitsOf(buff[..]), [];
    assert Overwrite(s, 24, w) == s && [] + ToBits(TypeOf(a), 12) == ToBits(TypeOf(a), 12);
    i := 24;
    i, w := PutBits(buff, i, 12, TypeOf(a), s, 24, w);
    i, w := PutBits(buff, i, 12, a.staid, s, 24, w);
    i, w := PutBits(buff, i, 6, 0, s, 24, w);
    i, w := PutBits(buff, i, 1, 1, s, 24, w);
    i, w := PutBits(buff, i, 1, 1, s, 24, w);
    i, w := PutBits(buff, i, 1, 0, s, 24, w);
    i, w := PutBits(buff, i, 1, 0, s, 24, w);
    assert w == LeadBits(a);
    i := PutCoordinates(buff, i, a, s, w);
  }

  method PutCoordinates(buff: array<byte>, i: nat, a: Arp, ghost s: bits, ghost lead: bits) returns (next: nat)
    requires buff.Length == 1200 && InRange38(a.x) && InRange38(a.y) && InRange38(a.z)
    requires |lead| == 34 && i == 24 + 34 && |s| == 8 * 1200 && BitsOf(buff[..]) == Overwrite(s, 24, lead)
    modifies buff
    ensures next == i + 118 && BitsOf(buff[..]) == Overwrite(s, 24, lead + CoordinateBits(a))
  {
    hide BitsOf, ToBits, Units;
    ghost var w := lead;
    next := i;
    next, w := PutWide(buff, next, a.x, s, 24, w);
    next, w := PutBits(buff, next, 1, 1, s, 24, w);
    next, w := PutBits(buff, next, 1, 0, s, 24, w);
    next, w := PutWide(buff, next, a.y, s, 24, w);
    next, w := PutBits(buff, next, 2, 0, s, 24, w);
    next, w := PutWide(buff, next, a.z, s, 24, w);
    assert w == lead + CoordinateBits(a);
  }

  method EncodeType1005(buff: array<byte>, a: Arp) returns (nbit: nat)
    requires buff.Length == 1200 && InRange38(a.x) && InRange38(a.y) && InRange38(a.z) && a.hgt == None
    modifies buff
    ensures nbit == 24 + |ArpBits(a)|
    ensures BitsOf(buff[..]) == Overwrite(old(BitsOf(buff[..])), 24, ArpBits(a))
  {
    hide BitsOf, LeadBits, CoordinateBits;
    nbit := PutArp(buff, a);
    assert ArpBits(a) == LeadBits(a) + CoordinateBits(a);
  }

  method EncodeType1006(buff: array<byte>, a: Arp) returns (nbit: nat)
    requires buff.Length == 1200 && InRange38(a.x) && InRange38(a.y) && InRange38(a.z) && a.hgt.Some?
    modifies buff
    ensures nbit == 24 + |ArpBits(a)|
    ensures BitsOf(buff[..]) == Overwrite(old(BitsOf(buff[..])), 24, ArpBits(a))
  {
    hide BitsOf, LeadBits, CoordinateBits, ToBits;
    ghost var s := BitsOf(buff[..]);
    var hgt := 0;
    if 0.0 <= a.hgt.value <= 6.5535 {
      hgt := (a.hgt.value / 0.0001 + 0.5).Floor;
    }
    assert hgt == HeightUnits(a.hgt.value);
    var i := PutArp(buff, a);
    ghost var w;
    nbit, w := PutBits(buff, i, 16, hgt, s, 24, LeadBits(a) + CoordinateBits(a));
  }

  // -------------------------------------------------------------- decoding

  /** A length in metres, from its field in units of 0.1 mm: rr[j]*0.0001 in C, scaleFactor in Go. */
  function Metres(field: int): real {
    field as real * 0.0001
  }

  /** rtcm->sta with the station id; height is only set by a message of type 1006, which also sets deltype. */
  datatype Sta = Sta(staid: nat, itrf: nat, deltype: nat, x: real, y: real, z: real, hgt: real)

  function StaOf(r: Reading): Sta {
    Sta(r.staid, r.itrf, if r.height.Some? then 1 else 0, Metres(r.x), Metres(r.y), Metres(r.z),
        if r.height.Some? then Metres(r.height.value) else 0.0)
  }

  /** What a decoder makes of the message, in the terms of its bits. */
  predicate DecodesTo(s: bits, nbits: nat, withHeight: bool, f: Following, r: Option<Sta>)
    requires nbits <= |s|
  {
    && (r.Some? <==> (if withHeight then nbits >= 192 else nbits == 176) && StaidOk(f, Value(s[36..48])))
    && (r.Some? ==>
          && r.value.staid == Value(s[36..48]) && r.value.itrf == Value(s[48..54])
          && r.value.x == Signed(s[58..96]) as real * 0.0001
          && r.value.y == Signed(s[98..136]) as real * 0.0001
          && r.value.z == Signed(s[138..176]) as real * 0.0001
          && r.value.hgt == (if withHeight then Value(s[176..192]) as real * 0.0001 else 0.0)
          && r.value.deltype == (if withHeight then 1 else 0))
  }

  /** The fields of the message; coordinates and height in units of 0.1 mm, before they are scaled. */
  datatype Reading = Reading(staid: nat, itrf: nat, x: int, y: int, z: int, height: Option<nat>)

  function ReadArp(s: bits, withHeight: bool): Reading
    requires |s| >= if withHeight then 192 else 176
  {
    Reading(Value(s[36..48]), Value(s[48..54]), Signed(s[58..96]), Signed(s[98..136]), Signed(s[138..176]),
            if withHeight then Some(Value(s[176..192])) else None)
  }

  /** decode_type1005 wants exactly its length, decode_type1006 at least that. */
  function ParseArp(s: bits, nbits: nat, withHeight: bool, f: Following): Option<Reading>
    requires nbits <= |s|
  {
    if !(if withHeight then 36 + 156 <= nbits else 36 + 140 == nbits) then None
    else if !StaidOk(f, Value(s[36..48])) then None
    else Some(ReadArp(s, withHeight))
  }

  function Decoded(r: Option<Reading>): Option<Sta> {
    if r.None? then None else Some(StaOf(r.value))
  }

  method DecodeType1005(buff: array<byte>, len: nat, f: Following) returns (r: Option<Sta>)
    requires len <= buff.Length
    ensures r == Decoded(ParseArp(BitsOf(buff[..]), 8 * len, false, f))
    ensures DecodesTo(BitsOf(buff[..]), 8 * len, false, f, r)
  {
    hide BitsOf, Value, Signed;
    var i := 24 + 12;
    if i + 140 != len * 8 {
      return None;
    }
    var staid := GetBitu(buff, i, 12); i := i + 12;
    var itrf := GetBitu(buff, i, 6); i := i + 6 + 4;
    var x := GetBits38(buff, i); i := i + 38 + 2;
    var y := GetBits38(buff, i); i := i + 38 + 2;
    var z := GetBits38(buff, i);
    if !StaidOk(f, staid) {
      return None;
    }
    r := Some(Sta(staid, itrf, 0, Metres(x), Metres(y), Metres(z), 0.0));
  }

  method DecodeType1006(buff: array<byte>, len: nat, f: Following) returns (r: Option<Sta>)
    requires len <= buff.Length
    ensures r == Decoded(ParseArp(BitsOf(buff[..]), 8 * len, true, f))
    ensures DecodesTo(BitsOf(buff[..]), 8 * len, true, f, r)
  {
    hide BitsOf, Value, Signed;
    var i := 24 + 12;
    if i + 156 > len * 8 {
      return None;
    }
    var staid := GetBitu(buff, i, 12); i := i + 12;
    var itrf := GetBitu(buff, i, 6); i := i + 6 + 4;
    var x := GetBits38(buff, i); i := i + 38 + 2;
    var y := GetBits38(buff, i); i := i + 38 + 2;
    var z := GetBits38(buff, i); i := i + 38;
    var anth := GetBitu(buff, i, 16);
    if !StaidOk(f, staid) {
      return None;
    }
    r := Some(Sta(staid, itrf, 1, Metres(x), Metres(y), Metres(z), Metres(anth)));
  }

  /** The Go message types: the same fields, and the bits RTKLIB passes over. */
  datatype Message = Message(fields: Reading, ignored1: nat, ignored2: nat, ignored3: nat)

  /** GetMessage of type1005 and of type1006: the embedded message may be longer than it need be. */
  method GetMessage(bitStream: seq<byte>, withHeight: bool) returns (m: Option<Message>)
    ensures m.Some? <==>
            && |bitStream| >= (if withHeight then 27 else 25)
            && MessageType(bitStream) == (if withHeight then 1006 else 1005)
    ensures m.Some? ==> m.value.fields == ReadArp(BitsOf(bitStream), withHeight)
    ensures m.Some? ==>
              var s, r := BitsOf(bitStream), m.value.fields;
              && r.staid == Value(s[36..48]) && r.itrf == Value(s[48..54])
              && r.x == Signed(s[58..96]) && r.y == Signed(s[98..136]) && r.z == Signed(s[138..176])
              && r.height == (if withHeight then Some(Value(s[176..192])) else None)
              && m.value.ignored1 == Value(s[54..58])
              && m.value.ignored2 == Value(s[96..98]) && m.value.ignored3 == Value(s[136..138])
  {
    hide BitsOf, Value, Signed, MessageType;
    var lenMessageInBits := |bitStream| * 8 - 24 - 24;
    if lenMessageInBits < (if withHeight then 168 else 152) {
      return None;
    }
    TypeAsBits(bitStream);
    var pos := 24;
    var messageType := GetBitsAsUint64(bitStream, pos, 12); pos := pos + 12;
    if messageType != (if withHeight then 1006 else 1005) {
      return None;
    }
    var stationID := GetBitsAsUint64(bitStream, pos, 12); pos := pos + 12;
    var itrf := GetBitsAsUint64(bitStream, pos, 6); pos := pos + 6;
    var ignored1 := GetBitsAsUint64(bitStream, pos, 4); pos := pos + 4;
    var x := GetBitsAsInt64(bitStream, pos, 38); pos := pos + 38;
    var ignored2 := GetBitsAsUint64(bitStream, pos, 2); pos := pos + 2;
    var y := GetBitsAsInt64(bitStream, pos, 38); pos := pos + 38;
    var ignored3 := GetBitsAsUint64(bitStream, pos, 2); pos := pos + 2;
    var z := GetBitsAsInt64(bitStream, pos, 38); pos := pos + 38;
    var height := None;
    if withHeight {
      var h := GetBitsAsUint64(bitStream, pos, 16); pos := pos + 16;
      height := Some(h);
    }
    m := Some(Message(Reading(stationID, itrf, x, y, z, height), ignored1, ignored2, ignored3));
  }

  // ------------------------------------------------------------ round trip

  /** The reading that the encoder's input stands for. */
  function ReadingOf(a: Arp): Reading {
    Reading(a.staid % 4096, 0, Units(a.x), Units(a.y), Units(a.z),
            if a.hgt.Some? then Some(HeightUnits(a.hgt.value)) else None)
  }

  lemma WideHolds(s: bits, pos: nat, metres: real)
    requires InRange38(metres) && Holds(s, pos, ToBits(Units(metres), 38))
    ensures pos + 38 <= |s| && Signed(s[pos..pos + 38]) == Units(metres)
  {
    WordSizes();
    SignedRoundTrip(Units(metres), 38);
  }

  lemma LeadHolds(s: bits, a: Arp)
    requires Holds(s, 24, LeadBits(a))
    ensures Holds(s, 24, ToBits(TypeOf(a), 12)) && Holds(s, 36, ToBits(a.staid, 12)) && Holds(s, 48, ToBits(0, 6))
    ensures Holds(s, 54, ToBits(1, 1)) && Holds(s, 55, ToBits(1, 1))
    ensures Holds(s, 56, ToBits(0, 1)) && Holds(s, 57, ToBits(0, 1))
  {
    hide ToBits, Holds;
    var w1 := ToBits(TypeOf(a), 12);
    var w2 := w1 + ToBits(a.staid, 12);
    var w3 := w2 + ToBits(0, 6);
    var w4 := w3 + ToBits(1, 1);
    var w5 := w4 + ToBits(1, 1);
    HoldsBoth(s, 24, w5 + ToBits(0, 1), ToBits(0, 1));
    HoldsBoth(s, 24, w5, ToBits(0, 1));
    HoldsBoth(s, 24, w4, ToBits(1, 1));
    HoldsBoth(s, 24, w3, ToBits(1, 1));
    HoldsBoth(s, 24, w2, ToBits(0, 6));
    HoldsBoth(s, 24, w1, ToBits(a.staid, 12));
  }

  lemma CoordinatesHold(s: bits, a: Arp)
    requires Holds(s, 58, CoordinateBits(a)) && InRange38(a.x) && InRange38(a.y) && InRange38(a.z)
    ensures |s| >= 176
    ensures Signed(s[58..96]) == Units(a.x) && Signed(s[98..136]) == Units(a.y) && Signed(s[138..176]) == Units(a.z)
    ensures Holds(s, 96, ToBits(1, 1)) && Holds(s, 97, ToBits(0, 1)) && Holds(s, 136, ToBits(0, 2))
  {
    hide ToBits, Holds, Units, Signed, InRange38;
    var w1 := ToBits(Units(a.x), 38);
    var w2 := w1 + ToBits(1, 1);
    var w3 := w2 + ToBits(0, 1);
    var w4 := w3 + ToBits(Units(a.y), 38);
    HoldsBoth(s, 58, w4 + ToBits(0, 2), ToBits(Units(a.z), 38));
    HoldsBoth(s, 58, w4, ToBits(0, 2));
    HoldsBoth(s, 58, w3, ToBits(Units(a.y), 38));
    HoldsBoth(s, 58, w2, ToBits(0, 1));
    HoldsBoth(s, 58, w1, ToBits(1, 1));
    WideHolds(s, 58, a.x);
    WideHolds(s, 98, a.y);
    WideHolds(s, 138, a.z);
  }

  lemma HeightHolds(s: bits, a: Arp)
    requires a.hgt.Some? && Holds(s, 176, HeightBits(a))
    ensures |s| >= 192 && Value(s[176..192]) == HeightUnits(a.hgt.value)
  {
    hide ToBits, HeightUnits;
    FieldHolds(s, 176, HeightUnits(a.hgt.value), 16);
    Pow2Add(8, 8);
    DivModRange(HeightUnits(a.hgt.value), Pow2(16));
  }

  /** Any buffer that holds the encoded message reads back as what was encoded. */
  lemma ArpReadsBack(s: bits, a: Arp)
    requires Holds(s, 24, ArpBits(a)) && InRange38(a.x) && InRange38(a.y) && InRange38(a.z)
    ensures |s| >= 24 + |ArpBits(a)| && Value(s[24..36]) == TypeOf(a) && Value(s[36..48]) == a.staid % 4096
    ensures ReadArp(s, a.hgt.Some?) == ReadingOf(a)
  {
    hide LeadBits, CoordinateBits, HeightBits, Units, HeightUnits, Value, Signed, Holds, InRange38, Pow2;
    HoldsBoth(s, 24, LeadBits(a) + CoordinateBits(a), HeightBits(a));
    HoldsBoth(s, 24, LeadBits(a), CoordinateBits(a));
    LeadHolds(s, a);
    CoordinatesHold(s, a);
    if a.hgt.Some? {
      HeightHolds(s, a);
    }
    WordSizes();
    FieldHolds(s, 24, TypeOf(a), 12);
    FieldHolds(s, 36, a.staid, 12);
    FieldHolds(s, 48, 0, 6);
  }

  /** A coordinate comes back short of what it was by less than 0.1 mm. */
  predicate Near(decoded: real, metres: real) {
    decoded <= metres < decoded + 0.0001
  }

  lemma UnitsInMetres(metres: real)
    ensures Near(Metres(Units(metres)), metres)
  {
  }

  /** A height within range comes back to the nearest 0.1 mm, and any other as 0. */
  predicate NearHeight(decoded: real, hgt: real) {
    if 0.0 <= hgt <= 6.5535 then -0.00005 <= decoded - hgt <= 0.00005 else decoded == 0.0
  }

  lemma HeightInMetres(hgt: real)
    ensures NearHeight(Metres(HeightUnits(hgt)), hgt)
  {
  }

  /** The decoded station is the one that was encoded: its id, its coordinates and its height. */
  predicate IsStation(d: Sta, a: Arp) {
    && d.staid == a.staid % 4096 && d.itrf == 0
    && Near(d.x, a.x) && Near(d.y, a.y) && Near(d.z, a.z)
    && (if a.hgt.Some? then d.deltype == 1 && NearHeight(d.hgt, a.hgt.value) else d.deltype == 0 && d.hgt == 0.0)
  }

  lemma ReadingIsStation(a: Arp)
    ensures IsStation(StaOf(ReadingOf(a)), a)
  {
    hide Units, HeightUnits, Near, NearHeight;
    UnitsInMetres(a.x);
    UnitsInMetres(a.y);
    UnitsInMetres(a.z);
    if a.hgt.Some? {
      HeightInMetres(a.hgt.value);
    }
  }

  /**
   The message bit by bit: number, station id, realization year, the
   indicators, and the coordinates and the height to within their resolution.
   */
  lemma ArpOnTheWire(s: bits, a: Arp)
    requires Holds(s, 24, ArpBits(a)) && InRange38(a.x) && InRange38(a.y) && InRange38(a.z)
    ensures |s| >= (if a.hgt.Some? then 192 else 176)
    ensures Value(s[24..36]) == (if a.hgt.Some? then 1006 else 1005)
    ensures Value(s[36..48]) == a.staid % 4096 && Value(s[48..54]) == 0
    ensures s[54] && s[55] && !s[56] && !s[57] && s[96] && !s[97] && !s[136] && !s[137]
    ensures Near(Signed(s[58..96]) as real * 0.0001, a.x)
    ensures Near(Signed(s[98..136]) as real * 0.0001, a.y)
    ensures Near(Signed(s[138..176]) as real * 0.0001, a.z)
    ensures a.hgt.Some? ==> NearHeight(Value(s[176..192]) as real * 0.0001, a.hgt.value)
  {
    hide LeadBits, CoordinateBits, HeightBits, Units, HeightUnits, Value, Signed, Holds, InRange38, Near, NearHeight,
         ToBits;
    ArpReadsBack(s, a);
    ReadingIsStation(a);
    HoldsBoth(s, 24, LeadBits(a) + CoordinateBits(a), HeightBits(a));
    HoldsBoth(s, 24, LeadBits(a), CoordinateBits(a));
    LeadHolds(s, a);
    CoordinatesHold(s, a);
    FixedBit(s, 54, true);
    FixedBit(s, 55, true);
    FixedBit(s, 56, false);
    FixedBit(s, 57, false);
    FixedBit(s, 96, true);
    FixedBit(s, 97, false);
    TwoZeros(s, 136);
  }

  lemma FixedBit(s: bits, pos: nat, b: bool)
    requires Holds(s, pos, ToBits(if b then 1 else 0, 1))
    ensures pos < |s| && s[pos] == b
  {
    assert ToBits(if b then 1 else 0, 1) == [b];
    assert s[pos] == s[pos..pos + 1][0];
  }

  lemma TwoZeros(s: bits, pos: nat)
    requires Holds(s, pos, ToBits(0, 2))
    ensures pos + 1 < |s| && !s[pos] && !s[pos + 1]
  {
    assert ToBits(0, 2) == [false, false];
    assert s[pos] == s[pos..pos + 2][0] && s[pos + 1] == s[pos..pos + 2][1];
  }
}
