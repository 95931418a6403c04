/**
 CRC-24Q, the parity of every RTCM 3 frame: the bitwise form of BNC's CRC24 and
 the table form of RTKLIB's rtk_crc24q.

 The programs work on 32-bit words.  The proofs work on the 24 bits of the
 register, most significant first, where one step of the register is a linear
 map over GF(2).
 */
module Crc24q {
  import opened Bits

  // ------------------------------------------------------------ the programs

  /** crc <<= 1; if (crc & 0x1000000) crc ^= 0x01864cfb; */
  function Shift(crc: bv32): bv32 {
    if (crc << 1) & 0x1000000 != 0 then (crc << 1) ^ 0x01864cfb else crc << 1
  }

  function Shift8(crc: bv32): bv32 {
    Shift(Shift(Shift(Shift(Shift(Shift(Shift(Shift(crc))))))))
  }

  /** The bitwise form's work on one byte. */
  function ByteStep(crc: bv32, b: byte): bv32 {
    Shift8(crc ^ ((b as bv32) << 16))
  }

  /** The register after a whole buffer. */
  function Crc(buf: seq<byte>): bv32 {
    if buf == [] then 0 else ByteStep(Crc(buf[..|buf| - 1]), buf[|buf| - 1])
  }

  /** BNC's CRC24. */
  method CRC24(buf: seq<byte>) returns (crc: bv32)
    ensures crc == Crc(buf)
  {
    crc := 0;
    for i := 0 to |buf|
      invariant crc == Crc(buf[..i])
    {
      assert buf[..i + 1][..i] == buf[..i];
      crc := crc ^ ((buf[i] as bv32) << 16);
      ghost var start := crc;
      for ii := 0 to 8
        invariant crc == ShiftN(start, ii)
      {
        crc := crc << 1;
        if crc & 0x1000000 != 0 {
          crc := crc ^ 0x01864cfb;
        }
      }
      ShiftNIsShift8(start);
    }
    assert buf[..|buf|] == buf;
  }

  function ShiftN(crc: bv32, n: nat): bv32 {
    if n == 0 then crc else Shift(ShiftN(crc, n - 1))
  }

  lemma ShiftNIsShift8(crc: bv32)
    ensures ShiftN(crc, 8) == Shift8(crc)
  {
    var s1 := Shift(crc); var s2 := Shift(s1); var s3 := Shift(s2); var s4 := Shift(s3);
    assert ShiftN(crc, 1) == s1;
    assert ShiftN(crc, 2) == s2;
    assert ShiftN(crc, 3) == s3;
    assert ShiftN(crc, 4) == s4;
    assert ShiftN(crc, 5) == Shift(s4);
    assert ShiftN(crc, 6) == Shift(Shift(s4));
    assert ShiftN(crc, 7) == Shift(Shift(Shift(s4)));
  }

  // RTKLIB's tbl_CRC24Q, sixteen entries to a row.
  const TBL_0: seq<bv32> := [
    0x000000, 0x864CFB, 0x8AD50D, 0x0C99F6, 0x93E6E1, 0x15AA1A, 0x1933EC, 0x9F7F17,
    0xA18139, 0x27CDC2, 0x2B5434, 0xAD18CF, 0x3267D8, 0xB42B23, 0xB8B2D5, 0x3EFE2E]
  const TBL_1: seq<bv32> := [
    0xC54E89, 0x430272, 0x4F9B84, 0xC9D77F, 0x56A868, 0xD0E493, 0xDC7D65, 0x5A319E,
    0x64CFB0, 0xE2834B, 0xEE1ABD, 0x685646, 0xF72951, 0x7165AA, 0x7DFC5C, 0xFBB0A7]
  const TBL_2: seq<bv32> := [
    0x0CD1E9, 0x8A9D12, 0x8604E4, 0x00481F, 0x9F3708, 0x197BF3, 0x15E205, 0x93AEFE,
    0xAD50D0, 0x2B1C2B, 0x2785DD, 0xA1C926, 0x3EB631, 0xB8FACA, 0xB4633C, 0x322FC7]
  const TBL_3: seq<bv32> := [
    0xC99F60, 0x4FD39B, 0x434A6D, 0xC50696, 0x5A7981, 0xDC357A, 0xD0AC8C, 0x56E077,
    0x681E59, 0xEE52A2, 0xE2CB54, 0x6487AF, 0xFBF8B8, 0x7DB443, 0x712DB5, 0xF7614E]
  const TBL_4: seq<bv32> := [
    0x19A3D2, 0x9FEF29, 0x9376DF, 0x153A24, 0x8A4533, 0x0C09C8, 0x00903E, 0x86DCC5,
    0xB822EB, 0x3E6E10, 0x32F7E6, 0xB4BB1D, 0x2BC40A, 0xAD88F1, 0xA11107, 0x275DFC]
  const TBL_5: seq<bv32> := [
    0xDCED5B, 0x5AA1A0, 0x563856, 0xD074AD, 0x4F0BBA, 0xC94741, 0xC5DEB7, 0x43924C,
    0x7D6C62, 0xFB2099, 0xF7B96F, 0x71F594, 0xEE8A83, 0x68C678, 0x645F8E, 0xE21375]
  const TBL_6: seq<bv32> := [
    0x15723B, 0x933EC0, 0x9FA736, 0x19EBCD, 0x8694DA, 0x00D821, 0x0C41D7, 0x8A0D2C,
    0xB4F302, 0x32BFF9, 0x3E260F, 0xB86AF4, 0x2715E3, 0xA15918, 0xADC0EE, 0x2B8C15]
  const TBL_7: seq<bv32> := [
    0xD03CB2, 0x567049, 0x5AE9BF, 0xDCA544, 0x43DA53, 0xC596A8, 0xC90F5E, 0x4F43A5,
    0x71BD8B, 0xF7F170, 0xFB6886, 0x7D247D, 0xE25B6A, 0x641791, 0x688E67, 0xEEC29C]
  const TBL_8: seq<bv32> := [
    0x3347A4, 0xB50B5F, 0xB992A9, 0x3FDE52, 0xA0A145, 0x26EDBE, 0x2A7448, 0xAC38B3,
    0x92C69D, 0x148A66, 0x181390, 0x9E5F6B, 0x01207C, 0x876C87, 0x8BF571, 0x0DB98A]
  const TBL_9: seq<bv32> := [
    0xF6092D, 0x7045D6, 0x7CDC20, 0xFA90DB, 0x65EFCC, 0xE3A337, 0xEF3AC1, 0x69763A,
    0x578814, 0xD1C4EF, 0xDD5D19, 0x5B11E2, 0xC46EF5, 0x42220E, 0x4EBBF8, 0xC8F703]
  const TBL_A: seq<bv32> := [
    0x3F964D, 0xB9DAB6, 0xB54340, 0x330FBB, 0xAC70AC, 0x2A3C57, 0x26A5A1, 0xA0E95A,
    0x9E1774, 0x185B8F, 0x14C279, 0x928E82, 0x0DF195, 0x8BBD6E, 0x872498, 0x016863]
  const TBL_B: seq<bv32> := [
    0xFAD8C4, 0x7C943F, 0x700DC9, 0xF64132, 0x693E25, 0xEF72DE, 0xE3EB28, 0x65A7D3,
    0x5B59FD, 0xDD1506, 0xD18CF0, 0x57C00B, 0xC8BF1C, 0x4EF3E7, 0x426A11, 0xC426EA]
  const TBL_C: seq<bv32> := [
    0x2AE476, 0xACA88D, 0xA0317B, 0x267D80, 0xB90297, 0x3F4E6C, 0x33D79A, 0xB59B61,
    0x8B654F, 0x0D29B4, 0x01B042, 0x87FCB9, 0x1883AE, 0x9ECF55, 0x9256A3, 0x141A58]
  const TBL_D: seq<bv32> := [
    0xEFAAFF, 0x69E604, 0x657FF2, 0xE33309, 0x7C4C1E, 0xFA00E5, 0xF69913, 0x70D5E8,
    0x4E2BC6, 0xC8673D, 0xC4FECB, 0x42B230, 0xDDCD27, 0x5B81DC, 0x57182A, 0xD154D1]
  const TBL_E: seq<bv32> := [
    0x26359F, 0xA07964, 0xACE092, 0x2AAC69, 0xB5D37E, 0x339F85, 0x3F0673, 0xB94A88,
    0x87B4A6, 0x01F85D, 0x0D61AB, 0x8B2D50, 0x145247, 0x921EBC, 0x9E874A, 0x18CBB1]
  const TBL_F: seq<bv32> := [
    0xE37B16, 0x6537ED, 0x69AE1B, 0xEFE2E0, 0x709DF7, 0xF6D10C, 0xFA48FA, 0x7C0401,
    0x42FA2F, 0xC4B6D4, 0xC82F22, 0x4E63D9, 0xD11CCE, 0x575035, 0x5BC9C3, 0xDD8538]

  function TableEntry(i: bv8): bv32 {
    match i >> 4
    case 0x0 => TBL_0[(i & 0xF) as int]
    case 0x1 => TBL_1[(i & 0xF) as int]
    case 0x2 => TBL_2[(i & 0xF) as int]
    case 0x3 => TBL_3[(i & 0xF) as int]
    case 0x4 => TBL_4[(i & 0xF) as int]
    case 0x5 => TBL_5[(i & 0xF) as int]
    case 0x6 => TBL_6[(i & 0xF) as int]
    case 0x7 => TBL_7[(i & 0xF) as int]
    case 0x8 => TBL_8[(i & 0xF) as int]
    case 0x9 => TBL_9[(i & 0xF) as int]
    case 0xA => TBL_A[(i & 0xF) as int]
    case 0xB => TBL_B[(i & 0xF) as int]
    case 0xC => TBL_C[(i & 0xF) as int]
    case 0xD => TBL_D[(i & 0xF) as int]
    case 0xE => TBL_E[(i & 0xF) as int]
    case 0xF => TBL_F[(i & 0xF) as int]
  }

  /** The table form's work on one byte; the index is (crc >> 16) ^ b. */
  function TableStep(crc: bv32, b: byte): bv32
    requires crc < 0x1000000
  {
    AddEntry(crc, TableEntry(((crc >> 16) ^ (b as bv32)) as bv8))
  }

  function AddEntry(crc: bv32, entry: bv32): bv32 {
    ((crc << 8) & 0xFFFFFF) ^ entry
  }

  /** RTKLIB's rtk_crc24q computes the same register as the bitwise form. */
  method RtkCrc24q(buff: seq<byte>) returns (crc: bv32)
    ensures crc == Crc(buff) < 0x1000000
  {
    crc := 0;
    for i := 0 to |buff|
      invariant crc == Crc(buff[..i]) < 0x1000000
    {
      assert buff[..i + 1][..i] == buff[..i];
      TableStepIsByteStep(crc, buff[i]);
      crc := TableStep(crc, buff[i]);
    }
    assert buff[..|buff|] == buff;
  }

  // --------------------------------------------- every entry of the table

  lemma TableRow0(b: bv8)
    requires b >> 4 == 0x0
    ensures TableEntry(b) == Shift8((b as bv32) << 16)
  {
  }

  lemma TableRow1(b: bv8)
    requires b >> 4 == 0x1
    ensures TableEntry(b) == Shift8((b as bv32) << 16)
  {
  }

  lemma TableRow2(b: bv8)
    requires b >> 4 == 0x2
    ensures TableEntry(b) == Shift8((b as bv32) << 16)
  {
  }

  lemma TableRow3(b: bv8)
    requires b >> 4 == 0x3
    ensures TableEntry(b) == Shift8((b as bv32) << 16)
  {
  }

  lemma TableRow4(b: bv8)
    requires b >> 4 == 0x4
    ensures TableEntry(b) == Shift8((b as bv32) << 16)
  {
  }

  lemma TableRow5(b: bv8)
    requires b >> 4 == 0x5
    ensures TableEntry(b) == Shift8((b as bv32) << 16)
  {
  }

  lemma TableRow6(b: bv8)
    requires b >> 4 == 0x6
    ensures TableEntry(b) == Shift8((b as bv32) << 16)
  {
  }

  lemma TableRow7(b: bv8)
    requires b >> 4 == 0x7
    ensures TableEntry(b) == Shift8((b as bv32) << 16)
  {
  }

  lemma TableRow8(b: bv8)
    requires b >> 4 == 0x8
    ensures TableEntry(b) == Shift8((b as bv32) << 16)
  {
  }

  lemma TableRow9(b: bv8)
    requires b >> 4 == 0x9
    ensures TableEntry(b) == Shift8((b as bv32) << 16)
  {
  }

  lemma TableRowA(b: bv8)
    requires b >> 4 == 0xA
    ensures TableEntry(b) == Shift8((b as bv32) << 16)
  {
  }

  lemma TableRowB(b: bv8)
    requires b >> 4 == 0xB
    ensures TableEntry(b) == Shift8((b as bv32) << 16)
  {
  }

  lemma TableRowC(b: bv8)
    requires b >> 4 == 0xC
    ensures TableEntry(b) == Shift8((b as bv32) << 16)
  {
  }

  lemma TableRowD(b: bv8)
    requires b >> 4 == 0xD
    ensures TableEntry(b) == Shift8((b as bv32) << 16)
  {
  }

  lemma TableRowE(b: bv8)
    requires b >> 4 == 0xE
    ensures TableEntry(b) == Shift8((b as bv32) << 16)
  {
  }

  lemma TableRowF(b: bv8)
    requires b >> 4 == 0xF
    ensures TableEntry(b) == Shift8((b as bv32) << 16)
  {
  }

  /** The table is the eight-step image of each byte. */
  lemma TableIsShift8(b: bv8)
    ensures TableEntry(b) == Shift8((b as bv32) << 16)
  {
    match b >> 4
      case 0x0 => TableRow0(b); case 0x1 => TableRow1(b); case 0x2 => TableRow2(b); case 0x3 => TableRow3(b);
      case 0x4 => TableRow4(b); case 0x5 => TableRow5(b); case 0x6 => TableRow6(b); case 0x7 => TableRow7(b);
      case 0x8 => TableRow8(b); case 0x9 => TableRow9(b); case 0xA => TableRowA(b); case 0xB => TableRowB(b);
      case 0xC => TableRowC(b); case 0xD => TableRowD(b); case 0xE => TableRowE(b); case 0xF => TableRowF(b);
  }

  // ------------------------------------------------- the register's 24 bits

  function Byte2(w: bv32): byte { ((w >> 16) & 0xFF) as bv8 }
  function Byte1(w: bv32): byte { ((w >> 8) & 0xFF) as bv8 }
  function Byte0(w: bv32): byte { (w & 0xFF) as bv8 }

  function WordBits(w: bv32): (r: bits)
    ensures |r| == 24
  {
    ByteBits(Byte2(w)) + ByteBits(Byte1(w)) + ByteBits(Byte0(w))
  }

  lemma BytesXor(x: bv32, y: bv32)
    ensures Byte2(x ^ y) == Byte2(x) ^ Byte2(y)
    ensures Byte1(x ^ y) == Byte1(x) ^ Byte1(y)
    ensures Byte0(x ^ y) == Byte0(x) ^ Byte0(y)
  {
  }

  lemma BytesShift(w: bv32)
    ensures Byte2(w << 1) == (Byte2(w) << 1) | (Byte1(w) >> 7)
    ensures Byte1(w << 1) == (Byte1(w) << 1) | (Byte0(w) >> 7)
    ensures Byte0(w << 1) == Byte0(w) << 1
  {
  }

  lemma Recompose(w: bv32)
    requires w < 0x1000000
    ensures w == ((Byte2(w) as bv32) << 16) | ((Byte1(w) as bv32) << 8) | (Byte0(w) as bv32)
  {
  }

  lemma MaskXor(a: byte, b: byte, k: nat, m: byte)
    requires k < 8 && m == Mask(k)
    ensures ((a ^ b) & m != 0) == ((a & m != 0) != (b & m != 0))
  {
  }

  lemma TestBitXor(a: byte, b: byte, k: nat)
    requires k < 8
    ensures ((a ^ b) & Mask(k) != 0) == ((a & Mask(k) != 0) != (b & Mask(k) != 0))
  {
    MaskXor(a, b, k, Mask(k));
  }

  lemma ByteBitXor(a: byte, b: byte, c: byte, k: nat)
    requires k < 8 && c == a ^ b
    ensures TestBit(c, k) == (TestBit(a, k) != TestBit(b, k))
  {
    TestBitXor(a, b, k);
  }

  lemma ByteBitsAt(b: byte, k: nat)
    requires k < 8
    ensures ByteBits(b)[k] == TestBit(b, k)
  {
  }

  lemma ByteBitsXorAt(a: byte, b: byte, c: byte, k: nat)
    requires k < 8 && c == a ^ b
    ensures ByteBits(c)[k] == (ByteBits(a)[k] != ByteBits(b)[k])
  {
    ByteBitsAt(a, k);
    ByteBitsAt(b, k);
    ByteBitsAt(c, k);
    ByteBitXor(a, b, c, k);
  }

  lemma ByteBitsXor(a: byte, b: byte, c: byte)
    requires c == a ^ b
    ensures ByteBits(c) == Xor(ByteBits(a), ByteBits(b))
  {
    forall k | 0 <= k < 8
      ensures ByteBits(c)[k] == Xor(ByteBits(a), ByteBits(b))[k]
    {
      ByteBitsXorAt(a, b, c, k);
    }
  }

  lemma ByteBitsDouble(a: byte, b: byte)
    ensures ByteBits((a << 1) | (b >> 7)) == ByteBits(a)[1..] + [ByteBits(b)[0]]
    ensures ByteBits(a << 1) == ByteBits(a)[1..] + [false]
  {
  }

  lemma WordBitsInjective(x: bv32, y: bv32)
    requires x < 0x1000000 && y < 0x1000000 && WordBits(x) == WordBits(y)
    ensures x == y
  {
    assert ByteBits(Byte2(x)) == WordBits(x)[..8] == WordBits(y)[..8] == ByteBits(Byte2(y));
    assert ByteBits(Byte1(x)) == WordBits(x)[8..16] == WordBits(y)[8..16] == ByteBits(Byte1(y));
    assert ByteBits(Byte0(x)) == WordBits(x)[16..] == WordBits(y)[16..] == ByteBits(Byte0(y));
    ByteBitsInjective(Byte2(x), Byte2(y));
    ByteBitsInjective(Byte1(x), Byte1(y));
    ByteBitsInjective(Byte0(x), Byte0(y));
    Recompose(x);
    Recompose(y);
  }

  // ------------------------------------------------- linear algebra on bits

  function Zeros(n: nat): (z: bits)
    ensures |z| == n
  {
    seq(n, _ => false)
  }

  function Xor(a: bits, b: bits): (r: bits)
    requires |a| == |b|
    ensures |r| == |a|
    ensures forall i :: 0 <= i < |a| ==> r[i] == (a[i] != b[i])
  {
    seq(|a|, i requires 0 <= i < |a| => a[i] != b[i])
  }

  /** The generator polynomial's bits below its top one. */
  function Poly(): (p: bits)
    ensures |p| == 24
  {
    WordBits(0x864cfb)
  }

  /** One step of the register: shift left, and subtract the polynomial if a bit fell out. */
  function Step(r: bits): (s: bits)
    requires |r| == 24
    ensures |s| == 24
  {
    if r[0] then Xor(r[1..] + [false], Poly()) else r[1..] + [false]
  }

  function StepN(r: bits, n: nat): (s: bits)
    requires |r| == 24
    ensures |s| == 24
    decreases n
  {
    if n == 0 then r else StepN(Step(r), n - 1)
  }

  /** The register after a message is fed in, bit by bit, at its top end. */
  function Feed(r: bits, d: bits): (s: bits)
    requires |r| == 24
    ensures |s| == 24
    decreases |d|
  {
    if d == [] then r else Feed(Step(Xor(r, [d[0]] + Zeros(23))), d[1..])
  }

  lemma XorThree(a: bits, b: bits, c: bits, x: bits, y: bits, z: bits)
    requires |a| == |x| && |b| == |y| && |c| == |z|
    ensures Xor(a + b + c, x + y + z) == Xor(a, x) + Xor(b, y) + Xor(c, z)
  {
  }

  lemma BytewiseXor(x: bv32, y: bv32, z: bv32)
    requires Byte2(z) == Byte2(x) ^ Byte2(y) && Byte1(z) == Byte1(x) ^ Byte1(y) && Byte0(z) == Byte0(x) ^ Byte0(y)
    ensures WordBits(z) == Xor(WordBits(x), WordBits(y))
  {
    hide ByteBits, Byte2, Byte1, Byte0, Xor;
    ByteBitsXor(Byte2(x), Byte2(y), Byte2(z));
    ByteBitsXor(Byte1(x), Byte1(y), Byte1(z));
    ByteBitsXor(Byte0(x), Byte0(y), Byte0(z));
    XorThree(ByteBits(Byte2(x)), ByteBits(Byte1(x)), ByteBits(Byte0(x)),
             ByteBits(Byte2(y)), ByteBits(Byte1(y)), ByteBits(Byte0(y)));
  }

  lemma WordBitsXor(x: bv32, y: bv32)
    ensures WordBits(x ^ y) == Xor(WordBits(x), WordBits(y))
  {
    hide WordBits, Xor;
    BytesXor(x, y);
    BytewiseXor(x, y, x ^ y);
  }

  lemma WordBitsDouble(w: bv32)
    ensures WordBits(w << 1) == WordBits(w)[1..] + [false]
  {
    hide ByteBits, Byte2, Byte1, Byte0;
    BytesShift(w);
    ByteBitsDouble(Byte2(w), Byte1(w));
    ByteBitsDouble(Byte1(w), Byte0(w));
    ByteBitsDouble(Byte0(w), 0);
  }

  lemma TopBit(w: bv32)
    ensures (w << 1) & 0x1000000 != 0 <==> WordBits(w)[0]
  {
  }

  lemma PolyBits()
    ensures WordBits(0x01864cfb) == Poly()
  {
  }

  lemma ShiftIsStep(w: bv32)
    ensures WordBits(Shift(w)) == Step(WordBits(w))
  {
    TopBit(w);
    WordBitsDouble(w);
    WordBitsXor(w << 1, 0x01864cfb);
    PolyBits();
  }

  lemma {:induction false} ShiftNIsStepN(w: bv32, n: nat)
    ensures WordBits(ShiftN(w, n)) == StepN(WordBits(w), n)
  {
    if n > 0 {
      ShiftNIsStepN(w, n - 1);
      ShiftIsStep(ShiftN(w, n - 1));
      StepNLast(WordBits(w), n);
    }
  }

  lemma {:induction false} StepNLast(r: bits, n: nat)
    requires |r| == 24 && n > 0
    ensures StepN(r, n) == Step(StepN(r, n - 1))
    decreases n
  {
    if n > 1 {
      StepNLast(Step(r), n - 1);
    }
  }

  lemma Shift8IsStep8(w: bv32)
    ensures WordBits(Shift8(w)) == StepN(WordBits(w), 8)
  {
    ShiftNIsShift8(w);
    ShiftNIsStepN(w, 8);
  }

  lemma StepXor(a: bits, b: bits)
    requires |a| == |b| == 24
    ensures Step(Xor(a, b)) == Xor(Step(a), Step(b))
  {
  }

  lemma {:induction false} StepNXor(a: bits, b: bits, n: nat)
    requires |a| == |b| == 24
    ensures StepN(Xor(a, b), n) == Xor(StepN(a, n), StepN(b, n))
    decreases n
  {
    if n > 0 {
      StepXor(a, b);
      StepNXor(Step(a), Step(b), n - 1);
    }
  }

  lemma XorSwap(a: bits, b: bits, c: bits, d: bits)
    requires |a| == |b| == |c| == |d|
    ensures Xor(Xor(a, b), Xor(c, d)) == Xor(Xor(a, c), Xor(b, d))
  {
  }

  lemma XorZeros(a: bits)
    ensures Xor(a, Zeros(|a|)) == a && Xor(Zeros(|a|), a) == a && Xor(a, a) == Zeros(|a|)
  {
  }

  /** Feeding is linear in the register and the message together. */
  lemma {:induction false} FeedXor(r: bits, d: bits, s: bits, e: bits)
    requires |r| == |s| == 24 && |d| == |e|
    ensures Feed(Xor(r, s), Xor(d, e)) == Xor(Feed(r, d), Feed(s, e))
    decreases |d|
  {
    if d != [] {
      var x, y := [d[0]] + Zeros(23), [e[0]] + Zeros(23);
      assert [d[0] != e[0]] + Zeros(23) == Xor(x, y);
      XorSwap(r, s, x, y);
      StepXor(Xor(r, x), Xor(s, y));
      assert Xor(d, e)[1..] == Xor(d[1..], e[1..]);
      FeedXor(Step(Xor(r, x)), d[1..], Step(Xor(s, y)), e[1..]);
    }
  }

  lemma {:induction false} FeedConcat(r: bits, d: bits, e: bits)
    requires |r| == 24
    ensures Feed(r, d + e) == Feed(Feed(r, d), e)
    decreases |d|
  {
    if d == [] {
      assert d + e == e;
    } else {
      assert (d + e)[1..] == d[1..] + e;
      FeedConcat(Step(Xor(r, [d[0]] + Zeros(23))), d[1..], e);
    }
  }

  lemma {:induction false} FeedZeros(n: nat)
    ensures Feed(Zeros(24), Zeros(n)) == Zeros(24)
  {
    if n > 0 {
      assert [false] + Zeros(23) == Zeros(24);
      XorZeros(Zeros(24));
      assert Step(Zeros(24)) == Zeros(24);
      assert Zeros(n)[1..] == Zeros(n - 1);
      FeedZeros(n - 1);
    }
  }

  /** A block of up to 24 bits may be xored into the top of the register at once. */
  lemma {:induction false} FeedBlock(r: bits, d: bits)
    requires |r| == 24 && |d| <= 24
    ensures Feed(r, d) == StepN(Xor(r, d + Zeros(24 - |d|)), |d|)
    decreases |d|
  {
    hide Step, Xor;
    if d == [] {
      assert d + Zeros(24) == Zeros(24);
      XorZeros(r);
    } else {
      FeedBlock(Step(Xor(r, [d[0]] + Zeros(23))), d[1..]);
      StepBlock(r, d);
    }
  }

  lemma StepBlock(r: bits, d: bits)
    requires |r| == 24 && 0 < |d| <= 24
    ensures Step(Xor(r, d + Zeros(24 - |d|))) == Xor(Step(Xor(r, [d[0]] + Zeros(23))), d[1..] + Zeros(25 - |d|))
  {
    hide Poly;
    var x, tail := [d[0]] + Zeros(23), [false] + d[1..] + Zeros(24 - |d|);
    assert d + Zeros(24 - |d|) == Xor(x, tail);
    assert Xor(r, Xor(x, tail)) == Xor(Xor(r, x), tail);
    StepXor(Xor(r, x), tail);
    assert Step(tail) == d[1..] + Zeros(25 - |d|);
  }

  lemma ByteAtTop(b: byte)
    ensures WordBits((b as bv32) << 16) == ByteBits(b) + Zeros(16)
  {
  }

  lemma ByteStepIsFeed(crc: bv32, b: byte)
    ensures WordBits(ByteStep(crc, b)) == Feed(WordBits(crc), ByteBits(b))
  {
    Shift8IsStep8(crc ^ ((b as bv32) << 16));
    WordBitsXor(crc, (b as bv32) << 16);
    ByteAtTop(b);
    FeedBlock(WordBits(crc), ByteBits(b));
  }

  lemma EmptyRegister()
    ensures WordBits(0) == Zeros(24)
  {
  }

  lemma {:induction false} CrcIsFeed(buf: seq<byte>)
    ensures WordBits(Crc(buf)) == Feed(Zeros(24), BitsOf(buf))
  {
    hide ByteStep, ByteBits, Step, WordBits;
    if buf == [] {
      EmptyRegister();
    } else {
      var init, last := buf[..|buf| - 1], buf[|buf| - 1];
      CrcIsFeed(init);
      ByteStepIsFeed(Crc(init), last);
      assert buf == init + [last];
      BitsOfConcat(init, [last]);
      BitsOfByte(last);
      FeedConcat(Zeros(24), BitsOf(init), ByteBits(last));
    }
  }

  // --------------------------------------- the table form refines the bitwise

  /** Stepping a block off the top: what is below moves up, and the block's image is added. */
  lemma {:induction false} StepNSplit(p: bits, q: bits)
    requires |p| + |q| == 24
    ensures StepN(p + q, |p|) == Xor(q + Zeros(|p|), StepN(p + Zeros(|q|), |p|))
  {
    var n := |p|;
    assert p + q == Xor(Zeros(n) + q, p + Zeros(|q|));
    StepNXor(Zeros(n) + q, p + Zeros(|q|), n);
    StepNLow(q, n);
  }

  lemma {:induction false} StepNLow(q: bits, n: nat)
    requires n + |q| == 24
    ensures StepN(Zeros(n) + q, n) == q + Zeros(n)
    decreases n
  {
    if n == 0 {
      assert Zeros(0) + q == q + Zeros(0);
    } else {
      assert Step(Zeros(n) + q) == Zeros(n - 1) + (q + [false]);
      StepNLow(q + [false], n - 1);
      assert q + [false] + Zeros(n - 1) == q + Zeros(n);
    }
  }

  lemma UpByteBits(crc: bv32, u: bv32)
    requires u == (crc << 8) & 0xFFFFFF
    ensures WordBits(u) == WordBits(crc)[8..] + Zeros(8)
  {
  }

  lemma IndexByte(crc: bv32, b: byte)
    requires crc < 0x1000000
    ensures ((crc >> 16) ^ (b as bv32)) as bv8 == Byte2(crc) ^ b
  {
  }

  lemma IndexBits(crc: bv32, b: byte)
    requires crc < 0x1000000
    ensures ByteBits(((crc >> 16) ^ (b as bv32)) as bv8) == Xor(WordBits(crc)[..8], ByteBits(b))
  {
    IndexByte(crc, b);
    ByteBitsXor(Byte2(crc), b, Byte2(crc) ^ b);
    assert WordBits(crc)[..8] == ByteBits(Byte2(crc));
  }

  lemma TableEntryBits(i: bv8)
    ensures WordBits(TableEntry(i)) == StepN(ByteBits(i) + Zeros(16), 8)
  {
    TableIsShift8(i);
    Shift8IsStep8((i as bv32) << 16);
    ByteAtTop(i);
  }

  lemma XorAboveByte(crc: bv32, u: bv32, e: bv32)
    requires u == (crc << 8) & 0xFFFFFF
    ensures WordBits(u ^ e) == Xor(WordBits(crc)[8..] + Zeros(8), WordBits(e))
  {
    UpByteBits(crc, u);
    WordBitsXor(u, e);
  }

  lemma AddEntryBits(crc: bv32, e: bv32)
    ensures WordBits(AddEntry(crc, e)) == Xor(WordBits(crc)[8..] + Zeros(8), WordBits(e))
  {
    XorAboveByte(crc, (crc << 8) & 0xFFFFFF, e);
  }

  lemma TableStepParts(crc: bv32, b: byte, i: bv8)
    requires crc < 0x1000000 && i == ((crc >> 16) ^ (b as bv32)) as bv8
    ensures WordBits(TableStep(crc, b)) == Xor(WordBits(crc)[8..] + Zeros(8), StepN(ByteBits(i) + Zeros(16), 8))
  {
    AddEntryBits(crc, TableEntry(i));
    TableEntryBits(i);
  }

  lemma TableStepBits(crc: bv32, b: byte)
    requires crc < 0x1000000
    ensures WordBits(TableStep(crc, b)) == Feed(WordBits(crc), ByteBits(b))
  {
    TableStepParts(crc, b, ((crc >> 16) ^ (b as bv32)) as bv8);
    IndexBits(crc, b);
    FeedSplit(WordBits(crc), ByteBits(b));
  }

  /** Feeding a byte: the low bits move up, and the image of the top byte xor the message byte is added. */
  lemma FeedSplit(r: bits, d: bits)
    requires |r| == 24 && |d| == 8
    ensures Feed(r, d) == Xor(r[8..] + Zeros(8), StepN(Xor(r[..8], d) + Zeros(16), 8))
  {
    FeedBlock(r, d);
    assert Xor(r, d + Zeros(16)) == Xor(r[..8], d) + r[8..];
    StepNSplit(Xor(r[..8], d), r[8..]);
  }

  lemma ShiftBound(w: bv32)
    requires w < 0x1000000
    ensures Shift(w) < 0x1000000
  {
  }

  lemma ByteStepBound(crc: bv32, b: byte)
    requires crc < 0x1000000
    ensures ByteStep(crc, b) < 0x1000000
  {
    var w := crc ^ ((b as bv32) << 16);
    assert w < 0x1000000;
    var w1 := Shift(w); var w2 := Shift(w1); var w3 := Shift(w2); var w4 := Shift(w3);
    var w5 := Shift(w4); var w6 := Shift(w5); var w7 := Shift(w6);
    ShiftBound(w); ShiftBound(w1); ShiftBound(w2); ShiftBound(w3);
    ShiftBound(w4); ShiftBound(w5); ShiftBound(w6); ShiftBound(w7);
  }

  lemma TableStepBound(crc: bv32, b: byte)
    requires crc < 0x1000000
    ensures TableStep(crc, b) < 0x1000000
  {
    var i := ((crc >> 16) ^ (b as bv32)) as bv8;
    TableIsShift8(i);
    ByteStepBound(0, i);
    assert 0 ^ ((i as bv32) << 16) == (i as bv32) << 16;
  }

  /** RTKLIB's table step is BNC's eight bit steps. */
  lemma TableStepIsByteStep(crc: bv32, b: byte)
    requires crc < 0x1000000
    ensures TableStep(crc, b) == ByteStep(crc, b) < 0x1000000
  {
    TableStepBits(crc, b);
    ByteStepIsFeed(crc, b);
    ByteStepBound(crc, b);
    TableStepBound(crc, b);
    WordBitsInjective(TableStep(crc, b), ByteStep(crc, b));
  }

  lemma {:induction false} CrcBound(buf: seq<byte>)
    ensures Crc(buf) < 0x1000000
  {
    if buf != [] {
      CrcBound(buf[..|buf| - 1]);
      ByteStepBound(Crc(buf[..|buf| - 1]), buf[|buf| - 1]);
    }
  }

  lemma CrcOfFive(a: byte, b: byte, c: byte, d: byte, e: byte)
    ensures Crc([a, b, c, d, e]) == ByteStep(ByteStep(ByteStep(ByteStep(ByteStep(0, a), b), c), d), e)
  {
    assert [a, b, c, d, e][..4] == [a, b, c, d] && [a, b, c, d][..3] == [a, b, c];
    assert [a, b, c][..2] == [a, b] && [a, b][..1] == [a] && [a][..0] == [];
    assert Crc([a]) == ByteStep(0, a);
    assert Crc([a, b]) == ByteStep(Crc([a]), b);
    assert Crc([a, b, c]) == ByteStep(Crc([a, b]), c);
    assert Crc([a, b, c, d]) == ByteStep(Crc([a, b, c]), d);
  }

  // ------------------------------------------------------------------ parity

  /** The last three bytes of a frame are the CRC of what precedes them. */
  predicate ParityOk(f: seq<byte>)
    requires |f| >= 3
  {
    WordBits(Crc(f[..|f| - 3])) == BitsOf(f[|f| - 3..])
  }

  /** The number a 24-bit register holds. */
  function Uint24(w: bv32): nat {
    Value(WordBits(w))
  }

  lemma BitsOfThree(a: byte, b: byte, c: byte)
    ensures BitsOf([a, b, c]) == ByteBits(a) + ByteBits(b) + ByteBits(c)
  {
    BitsOfConcat([a, b], [c]);
    BitsOfConcat([a], [b]);
    assert [a, b, c] == [a, b] + [c] && [a, b] == [a] + [b];
    BitsOfByte(a);
    BitsOfByte(b);
    BitsOfByte(c);
  }

  lemma WordOfBytes(a: byte, b: byte, c: byte, w: bv32)
    requires w == ((a as bv32) << 16) | ((b as bv32) << 8) | (c as bv32)
    ensures w < 0x1000000 && Byte2(w) == a && Byte1(w) == b && Byte0(w) == c
  {
  }

  lemma WordBitsOfBytes(a: byte, b: byte, c: byte, w: bv32)
    requires w == ((a as bv32) << 16) | ((b as bv32) << 8) | (c as bv32)
    ensures w < 0x1000000 && WordBits(w) == BitsOf([a, b, c])
  {
    WordOfBytes(a, b, c, w);
    BitsOfThree(a, b, c);
  }

  /** BNC assembles the three bytes into a word and compares words. */
  lemma BncParityTest(f: seq<byte>, w: bv32)
    requires |f| >= 3
    requires w == ((f[|f| - 3] as bv32) << 16) | ((f[|f| - 2] as bv32) << 8) | (f[|f| - 1] as bv32)
    ensures ParityOk(f) <==> w == Crc(f[..|f| - 3])
  {
    var crc := Crc(f[..|f| - 3]);
    assert f[|f| - 3..] == [f[|f| - 3], f[|f| - 2], f[|f| - 1]];
    WordBitsOfBytes(f[|f| - 3], f[|f| - 2], f[|f| - 1], w);
    CrcBound(f[..|f| - 3]);
    if WordBits(w) == WordBits(crc) {
      WordBitsInjective(w, crc);
    }
  }

  lemma CompareBytes(crc: bv32, a: byte, b: byte, c: byte, w: bv32)
    requires crc < 0x1000000 && w == ((a as bv32) << 16) | ((b as bv32) << 8) | (c as bv32)
    ensures w == crc <==> Byte2(crc) == a && Byte1(crc) == b && Byte0(crc) == c
  {
  }

  /** The Go handler compares the register's high, middle and low bytes one by one. */
  lemma GoParityTest(f: seq<byte>, crc: bv32)
    requires |f| >= 3 && crc == Crc(f[..|f| - 3])
    ensures ParityOk(f) <==> Byte2(crc) == f[|f| - 3] && Byte1(crc) == f[|f| - 2] && Byte0(crc) == f[|f| - 1]
  {
    var w := ((f[|f| - 3] as bv32) << 16) | ((f[|f| - 2] as bv32) << 8) | (f[|f| - 1] as bv32);
    BncParityTest(f, w);
    CrcBound(f[..|f| - 3]);
    CompareBytes(crc, f[|f| - 3], f[|f| - 2], f[|f| - 1], w);
  }

  /** RTKLIB reads the parity field with getbitu and compares numbers. */
  lemma RtklibParityTest(f: seq<byte>)
    requires |f| >= 3
    ensures ParityOk(f) <==> Value(BitsOf(f)[8 * (|f| - 3)..8 * |f|]) == Uint24(Crc(f[..|f| - 3]))
  {
    var n := |f|;
    BitsOfSlice(f, n - 3, n);
    assert f[n - 3..n] == f[n - 3..];
    ToBitsValue(BitsOf(f[n - 3..]));
    ToBitsValue(WordBits(Crc(f[..n - 3])));
  }

  // ------------------------------------------------------- burst detection

  /** Feeding the register's own bits empties it. */
  lemma {:induction false} FeedSelf(r: bits)
    requires |r| == 24
    ensures Feed(r, r) == Zeros(24)
  {
    FeedBlock(r, r);
    assert r + Zeros(0) == r;
    XorZeros(r);
    StepNXor(r, r, 24);
    XorZeros(StepN(r, 24));
  }

  /** If n <= 24 more bits empty the register, its low 24 - n bits were already clear. */
  lemma {:induction false} EmptiedLow(r: bits, d: bits)
    requires |r| == 24 && |d| <= 24 && Feed(r, d) == Zeros(24)
    ensures r[|d|..] == Zeros(24 - |d|)
    decreases |d|
  {
    hide Step, Poly;
    if d != [] {
      var x := Xor(r, [d[0]] + Zeros(23));
      EmptiedLow(Step(x), d[1..]);
      StepCleared(x, |d|);
      assert r[|d|..] == x[|d|..];
    } else {
      assert r[0..] == r;
    }
  }

  /** A step whose result ends in zeros shifted in a zero, because the polynomial is odd. */
  lemma StepCleared(x: bits, n: nat)
    requires |x| == 24 && 1 <= n <= 24 && Step(x)[n - 1..] == Zeros(24 - (n - 1))
    ensures x[n..] == Zeros(24 - n)
  {
    assert Step(x)[n - 1..][24 - n] == Step(x)[23];
    PolyIsOdd();
    assert !x[0];
    forall i | n <= i < 24
      ensures !x[i]
    {
      assert Step(x)[n - 1..][i - n] == Step(x)[i - 1] == x[i];
    }
  }

  lemma PolyIsOdd()
    ensures Poly()[23]
  {
  }

  /** Fewer than 24 bits cannot empty a register that holds the polynomial: its last bit stays. */
  lemma PolyNotEmptied(d: bits)
    requires |d| < 24
    ensures Feed(Poly(), d) != Zeros(24)
  {
    assert Poly()[|d|..][23 - |d|] == Poly()[23];
    PolyIsOdd();
    if Feed(Poly(), d) == Zeros(24) {
      EmptiedLow(Poly(), d);
    }
  }

  /** A message of at most 24 bits that leaves an empty register empty is all zeros. */
  lemma {:induction false} ShortMessageDetected(d: bits)
    requires |d| <= 24 && Feed(Zeros(24), d) == Zeros(24)
    ensures d == Zeros(|d|)
    decreases |d|
  {
    hide Poly;
    if d != [] {
      var x := [d[0]] + Zeros(23);
      XorZeros(x);
      assert x[1..] + [false] == Zeros(24);
      XorZeros(Poly());
      PolyNotEmptied(d[1..]);
      assert Step(x) == Zeros(24);
      ShortMessageDetected(d[1..]);
      assert d == [false] + d[1..];
    }
  }

  /** A register that zeros alone empty was empty. */
  lemma {:induction false} ZerosDoNotEmpty(r: bits, n: nat)
    requires |r| == 24 && Feed(r, Zeros(n)) == Zeros(24)
    ensures r == Zeros(24)
    decreases n
  {
    hide Poly;
    if n > 0 {
      assert [Zeros(n)[0]] + Zeros(23) == Zeros(24) && Zeros(n)[1..] == Zeros(n - 1);
      XorZeros(r);
      ZerosDoNotEmpty(Step(r), n - 1);
      StepCleared(r, 1);
      PolyIsOdd();
      assert Step(r)[23] == r[0];
      assert r == [r[0]] + r[1..];
    }
  }

  /** Only the register's own bits empty it in 24 steps. */
  lemma EmptiedBySelfOnly(r: bits, p: bits)
    requires |r| == |p| == 24
    ensures Feed(r, p) == Zeros(24) <==> r == p
  {
    FeedSelf(r);
    if Feed(r, p) == Zeros(24) {
      FeedXor(r, r, r, p);
      XorZeros(r);
      XorZeros(Zeros(24));
      ShortMessageDetected(Xor(r, p));
      assert forall i :: 0 <= i < 24 ==> !Xor(r, p)[i];
      assert r == p;
    }
  }

  /** The parity test is divisibility by the polynomial: the register is empty after the whole frame. */
  lemma ParityIsEmptyRegister(f: seq<byte>)
    requires |f| >= 3
    ensures ParityOk(f) <==> Feed(Zeros(24), BitsOf(f)) == Zeros(24)
  {
    var n := |f|;
    assert f == f[..n - 3] + f[n - 3..];
    BitsOfConcat(f[..n - 3], f[n - 3..]);
    CrcIsFeed(f[..n - 3]);
    FeedConcat(Zeros(24), BitsOf(f[..n - 3]), BitsOf(f[n - 3..]));
    EmptiedBySelfOnly(WordBits(Crc(f[..n - 3])), BitsOf(f[n - 3..]));
  }

  /** The two frames have one length and differ only inside the n bits from lo on. */
  predicate SameOutside(f: seq<byte>, g: seq<byte>, lo: nat, n: nat) {
    && |f| == |g| >= 3 && lo + n <= 8 * |f|
    && forall i :: 0 <= i < 8 * |f| && !(lo <= i < lo + n) ==> BitsOf(f)[i] == BitsOf(g)[i]
  }

  /** What the two frames differ by there. */
  function Burst(f: seq<byte>, g: seq<byte>, lo: nat, n: nat): (d: bits)
    requires SameOutside(f, g, lo, n)
    ensures |d| == n
  {
    Xor(BitsOf(f), BitsOf(g))[lo..lo + n]
  }

  /** Whether the other frame passes too depends on the burst alone, not on where it is. */
  lemma BurstDecides(f: seq<byte>, g: seq<byte>, lo: nat, n: nat)
    requires SameOutside(f, g, lo, n) && ParityOk(f)
    ensures ParityOk(g) <==> Feed(Zeros(24), Burst(f, g, lo, n)) == Zeros(24)
    ensures f == g <==> Burst(f, g, lo, n) == Zeros(n)
  {
    hide Feed, Step, Crc, ParityOk;
    var a, b, w, tail := BitsOf(f), BitsOf(g), Burst(f, g, lo, n), 8 * |f| - (lo + n);
    var d := Xor(a, b);
    ParityIsEmptyRegister(f);
    ParityIsEmptyRegister(g);
    FeedXor(Zeros(24), a, Zeros(24), b);
    XorZeros(Zeros(24));
    XorZeros(Feed(Zeros(24), b));
    assert Feed(Zeros(24), d) == Feed(Zeros(24), b);
    assert d == (Zeros(lo) + w) + Zeros(tail);
    FeedConcat(Zeros(24), Zeros(lo) + w, Zeros(tail));
    FeedConcat(Zeros(24), Zeros(lo), w);
    FeedZeros(lo);
    FeedZeros(tail);
    if Feed(Zeros(24), d) == Zeros(24) {
      ZerosDoNotEmpty(Feed(Zeros(24), w), tail);
    }
    EqualFrames(f, g, lo, n);
  }

  lemma EqualFrames(f: seq<byte>, g: seq<byte>, lo: nat, n: nat)
    requires SameOutside(f, g, lo, n)
    ensures f == g <==> Burst(f, g, lo, n) == Zeros(n)
  {
    var d := Xor(BitsOf(f), BitsOf(g));
    if Burst(f, g, lo, n) == Zeros(n) {
      assert forall i :: lo <= i < lo + n ==> d[i] == Zeros(n)[i - lo];
      assert BitsOf(f) == BitsOf(g);
      BitsOfInjective(f, g);
    }
  }

  /**
   Burst detection: two frames of the same length that differ only inside one
   window of 24 bits, wherever it starts, cannot both pass the parity test
   unless they are the same frame.
   */
  lemma BurstDetected(f: seq<byte>, g: seq<byte>, lo: nat)
    requires SameOutside(f, g, lo, 24)
    requires ParityOk(f) && ParityOk(g)
    ensures f == g
  {
    hide Feed, ParityOk, SameOutside, Burst;
    BurstDecides(f, g, lo, 24);
    ShortMessageDetected(Burst(f, g, lo, 24));
  }

  lemma FeedFirst(r: bits, b: bool, d: bits)
    requires |r| == 24
    ensures Feed(r, [b] + d) == Feed(Step(Xor(r, [b] + Zeros(23))), d)
  {
  }

  /** The generator polynomial with its top bit. */
  function Generator(): (g: bits)
    ensures |g| == 25
  {
    [true] + Poly()
  }

  /** Of the bursts of 25 bits the generator, and no other, goes undetected. */
  lemma TwentyFiveBitBurst(f: seq<byte>, g: seq<byte>, lo: nat)
    requires SameOutside(f, g, lo, 25) && ParityOk(f)
    ensures ParityOk(g) <==> f == g || Burst(f, g, lo, 25) == Generator()
  {
    hide Feed, Poly, ParityOk, SameOutside, Burst;
    BurstDecides(f, g, lo, 25);
    var d, x := Burst(f, g, lo, 25), [Burst(f, g, lo, 25)[0]] + Zeros(23);
    assert d == [d[0]] + d[1..];
    FeedFirst(Zeros(24), d[0], d[1..]);
    XorZeros(x);
    assert x[1..] + [false] == Zeros(24);
    XorZeros(Poly());
    assert Step(x) == if d[0] then Poly() else Zeros(24);
    EmptiedBySelfOnly(Step(x), d[1..]);
    assert Zeros(25) == [false] + Zeros(24);
  }

  /**
   So 24 is the most: beside every frame that passes, and wherever a window of
   25 bits is placed in it, there is another frame that passes and differs
   from it only there.
   */
  lemma TwentyFiveBitBurstUndetected(f: seq<byte>, lo: nat)
    requires |f| >= 3 && lo + 25 <= 8 * |f| && ParityOk(f)
    ensures exists g :: SameOutside(f, g, lo, 25) && ParityOk(g) && g != f
  {
    hide ParityOk, Generator;
    var a, d := BitsOf(f), Zeros(lo) + Generator() + Zeros(8 * |f| - lo - 25);
    var g := BytesOf(Xor(a, d));
    BitsOfBytes(Xor(a, d));
    assert Xor(a, Xor(a, d)) == d && d[lo..lo + 25] == Generator();
    assert forall i :: 0 <= i < 8 * |f| && !(lo <= i < lo + 25) ==> !d[i];
    assert SameOutside(f, g, lo, 25) && Burst(f, g, lo, 25) == Generator();
    TwentyFiveBitBurst(f, g, lo);
    EqualFrames(f, g, lo, 25);
    assert Generator()[0] by { GeneratorTop(); }
  }

  lemma GeneratorTop()
    ensures Generator()[0]
  {
  }
}
