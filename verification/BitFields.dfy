/**
 The bit-field accessors of the three code bases, as they run on a byte buffer:
 RTKLIB's getbitu, getbits, setbitu, setbits, the sign-magnitude and 38-bit
 variants of its RTCM encoder and decoder, and the Go package's 64-bit readers.

 unsigned int, int, uint64 and int64 are the sub-ranges of int below; the
 places where the C or Go code wraps around are written out as a modulus.
 */
module BitFields {
  import opened Bits

  const U32 := 0x1_0000_0000
  const U64 := 0x1_0000_0000_0000_0000
  type uint32 = x: int | 0 <= x < 0x1_0000_0000
  type int32 = x: int | -0x8000_0000 <= x < 0x8000_0000
  type uint64 = x: int | 0 <= x < 0x1_0000_0000_0000_0000
  type int64 = x: int | -0x8000_0000_0000_0000 <= x < 0x8000_0000_0000_0000

  lemma WordSizes()
    ensures Pow2(6) == 64 && Pow2(8) == 256 && Pow2(12) == 4096 && Pow2(24) == 0x100_0000
    ensures Pow2(31) == 0x8000_0000 && Pow2(32) == U32
    ensures Pow2(37) == 0x20_0000_0000 && Pow2(38) == 0x40_0000_0000
    ensures Pow2(63) == 0x8000_0000_0000_0000 && Pow2(64) == U64
  {
    assert Pow2(8) == 256;
    assert Pow2(16) == 0x1_0000 by { Pow2Add(8, 8); }
    assert Pow2(32) == U32 by { Pow2Add(16, 16); }
    assert Pow2(64) == U64 by { Pow2Add(32, 32); }
    Pow2Add(6, 6);
    Pow2Add(16, 8);
    Pow2Add(32, 6);
    assert Pow2(38) == 2 * Pow2(37);
  }

  /** The int with the same 32-bit pattern. */
  function Int32(x: uint32): int32 {
    if x < 0x8000_0000 then x else x - U32
  }

  /** The int64 with the same 64-bit pattern. */
  function Int64(x: uint64): int64 {
    if x < 0x8000_0000_0000_0000 then x else x - U64
  }

  // ------------------------------------------------------------------ reading

  lemma ModPush(v: int, p: int, t: int)
    requires p >= 1
    ensures (2 * (v % p) + t) % p == (2 * v + t) % p
  {
    var q, r := v / p, v % p;
    var q', r' := (2 * r + t) / p, (2 * r + t) % p;
    assert v == p * q + r && 2 * r + t == p * q' + r';
    assert p * (2 * q + q') == 2 * (p * q) + p * q';
    DivModUnique(2 * v + t, p, 2 * q + q', r');
  }

  /** One step of a reader's accumulator, in a word of p values. */
  lemma AccumulatorStep(s: bits, pos: nat, i: nat, p: int)
    requires pos <= i < |s| && p >= 1
    ensures (2 * (Value(s[pos..i]) % p) + if s[i] then 1 else 0) % p == Value(s[pos..i + 1]) % p
  {
    ValuePush(s[pos..i], s[i]);
    assert s[pos..i + 1] == s[pos..i] + [s[i]];
    ModPush(Value(s[pos..i]), p, if s[i] then 1 else 0);
  }

  lemma Fits(f: bits, w: nat, p: int)
    requires |f| <= w && p == Pow2(w)
    ensures Value(f) % p == Value(f) < p
  {
    ValueBound(f);
    Pow2Monotone(|f|, w);
    DivModRange(Value(f), p);
  }

  lemma FitsU32(f: bits)
    requires |f| <= 32
    ensures Value(f) % U32 == Value(f) < U32
  {
    WordSizes();
    Fits(f, 32, U32);
  }

  lemma FitsU64(f: bits)
    requires |f| <= 64
    ensures Value(f) % U64 == Value(f) < U64
  {
    WordSizes();
    Fits(f, 64, U64);
  }

  lemma GetBituStep(s: bits, pos: nat, i: nat)
    requires pos <= i < |s| && i - pos < 32
    ensures (2 * Value(s[pos..i]) + if s[i] then 1 else 0) % U32 == Value(s[pos..i + 1]) < U32
  {
    ValuePush(s[pos..i], s[i]);
    assert s[pos..i + 1] == s[pos..i] + [s[i]];
    FitsU32(s[pos..i + 1]);
  }

  /** getbitu, on the widths its header comment allows: the 32-bit accumulator never wraps around. */
  method GetBitu(buff: array<byte>, pos: nat, len: nat) returns (r: uint32)
    requires len <= 32 && pos + len <= 8 * buff.Length
    ensures r == Value(BitsOf(buff[..])[pos..pos + len])
  {
    ghost var s := BitsOf(buff[..]);
    r := 0;
    for i := pos to pos + len
      invariant r == Value(s[pos..i])
    {
      GetBituStep(s, pos, i);
      r := (2 * r + if TestBit(buff[i / 8], i % 8) then 1 else 0) % U32;
    }
  }

  /** What getbits makes of the unsigned field. */
  function SignExtend(u: uint32, len: nat): int
    requires 1 <= len <= 32
  {
    if 32 <= len || u / Pow2(len - 1) % 2 == 0 then u else u + (U32 - Pow2(len))
  }

  lemma SignExtendCorrect(f: bits)
    requires 1 <= |f| <= 32 && Value(f) < U32
    ensures 0 <= SignExtend(Value(f), |f|) < U32
    ensures Int32(SignExtend(Value(f), |f|)) == Signed(f)
  {
    SignBit(f);
    ValueBound(f);
    WordSizes();
    if |f| < 32 {
      Pow2Monotone(|f|, 31);
    }
  }

  lemma SignBit(f: bits)
    requires f != []
    ensures (Value(f) / Pow2(|f| - 1)) % 2 == if f[0] then 1 else 0
    ensures f[0] <==> Value(f) >= Pow2(|f| - 1)
  {
    assert f == [f[0]] + f[1..];
    ValueConcat([f[0]], f[1..]);
    ValueOne(f[0]);
    ValueBound(f[1..]);
    DivModRange(Value(f), Pow2(|f| - 1));
  }

  /** getbits: or-ing in ~0u << len above a set sign bit adds 2^32 - 2^len. */
  method GetBits(buff: array<byte>, pos: nat, len: nat) returns (r: int32)
    requires 1 <= len <= 32 && pos + len <= 8 * buff.Length
    ensures r == Signed(BitsOf(buff[..])[pos..pos + len])
  {
    var u := GetBitu(buff, pos, len);
    SignExtendCorrect(BitsOf(buff[..])[pos..pos + len]);
    r := Int32(SignExtend(u, len));
  }

  lemma OneBit(s: bits, pos: nat)
    requires pos < |s|
    ensures Value(s[pos..pos + 1]) == if s[pos] then 1 else 0
  {
    assert s[pos..pos + 1] == [] + [s[pos]];
    ValuePush([], s[pos]);
  }

  lemma SignMagnitudeSplit(s: bits, pos: nat, len: nat)
    requires len >= 1 && pos + len <= |s|
    ensures var m: int := Value(s[pos + 1..pos + 1 + (len - 1)]);
            SignMagnitude(s[pos..pos + len]) == if Value(s[pos..pos + 1]) != 0 then -m else m
  {
    OneBit(s, pos);
    assert s[pos..pos + len][1..] == s[pos + 1..pos + 1 + (len - 1)];
  }

  /** getbitg: sign-magnitude. */
  method GetBitg(buff: array<byte>, pos: nat, len: nat) returns (r: int)
    requires 1 <= len <= 32 && pos + len <= 8 * buff.Length
    ensures r == SignMagnitude(BitsOf(buff[..])[pos..pos + len])
  {
    var value: int := GetBitu(buff, pos + 1, len - 1);
    var sign := GetBitu(buff, pos, 1);
    SignMagnitudeSplit(BitsOf(buff[..]), pos, len);
    r := if sign != 0 then -value else value;
  }

  lemma Split38(s: bits, pos: nat)
    requires pos + 38 <= |s|
    ensures Signed(s[pos..pos + 38]) == Signed(s[pos..pos + 32]) * 64 + Value(s[pos + 32..pos + 32 + 6])
  {
    assert s[pos..pos + 38] == s[pos..pos + 32] + s[pos + 32..pos + 32 + 6];
    SignedConcat(s[pos..pos + 32], s[pos + 32..pos + 32 + 6]);
    assert Pow2(6) == 64;
  }

  /** getbits_38: a signed high word and six unsigned low bits. */
  method GetBits38(buff: array<byte>, pos: nat) returns (r: int)
    requires pos + 38 <= 8 * buff.Length
    ensures r == Signed(BitsOf(buff[..])[pos..pos + 38])
  {
    Split38(BitsOf(buff[..]), pos);
    var h: int := GetBits(buff, pos, 32);
    var l: int := GetBitu(buff, pos + 32, 6);
    r := h * 64 + l;
  }

  /** The Go reader has a 64-bit accumulator. */
  method GetBitsAsUint64(buff: seq<byte>, pos: nat, len: nat) returns (r: uint64)
    requires pos + len <= 8 * |buff|
    ensures r == Value(BitsOf(buff)[pos..pos + len]) % U64
    ensures len <= 64 ==> r == Value(BitsOf(buff)[pos..pos + len])
  {
    ghost var s := BitsOf(buff);
    r := 0;
    for i := pos to pos + len
      invariant r == Value(s[pos..i]) % U64
    {
      AccumulatorStep(s, pos, i, U64);
      r := (2 * r + if TestBit(buff[i / 8], i % 8) then 1 else 0) % U64;
    }
    if len <= 64 {
      FitsU64(s[pos..pos + len]);
    }
  }

  /** What GetBitsAsInt64 computes: for width 1 the mask 2 << (len - 2) is 0, and the sign is lost. */
  function GoSigned(f: bits): int {
    if |f| == 1 then Value(f) else Signed(f)
  }

  /** GetBitsAsInt64 is two's complement except on a single set bit. */
  lemma GoSignedIsTwosComplement(f: bits)
    requires f != []
    ensures GoSigned(f) == Signed(f) <==> f != [true]
    ensures GoSigned([true]) == 1
  {
  }

  /** The Go arithmetic on a field whose top bit is set. */
  function GoNegative(uval: uint64, len: nat): int
    requires 1 <= len <= 64
  {
    // uval & mask and uval & ^mask, where mask is the sign bit's weight, or 0 for width 1
    var mask := if len == 1 then 0 else Pow2(len - 1);
    var weightOfTopBit := if mask < 0x8000_0000_0000_0000 then mask else mask - U64;
    var weightOfLowerBits := uval - mask;
    var sum := -weightOfTopBit + weightOfLowerBits;
    if sum < 0 then sum + U64 else if sum < U64 then sum else sum - U64
  }

  lemma GoNegativeCorrect(f: bits)
    requires 1 <= |f| <= 64 && f[0] && Value(f) < U64
    ensures 0 <= GoNegative(Value(f), |f|) < U64
    ensures Int64(GoNegative(Value(f), |f|)) == GoSigned(f)
  {
    SignBit(f);
    ValueBound(f);
    WordSizes();
    Pow2Monotone(|f| - 1, 63);
    if |f| == 1 {
      assert f == [true];
    }
  }

  method GetBitsAsInt64(buff: seq<byte>, pos: nat, len: nat) returns (r: int64)
    requires 1 <= len <= 64 && pos + len <= 8 * |buff|
    ensures r == GoSigned(BitsOf(buff)[pos..pos + len])
  {
    var top := GetBitsAsUint64(buff, pos, 1);
    var uval := GetBitsAsUint64(buff, pos, len);
    ghost var f := BitsOf(buff)[pos..pos + len];
    OneBit(BitsOf(buff), pos);
    if top == 1 {
      GoNegativeCorrect(f);
      r := Int64(GoNegative(uval, len));
    } else {
      SignBit(f);
      WordSizes();
      Pow2Monotone(len - 1, 63);
      r := Int64(uval);
    }
  }

  // ------------------------------------------------------------------ writing

  method SetOneBit(buff: array<byte>, i: nat, v: bool)
    requires i < 8 * buff.Length
    modifies buff
    ensures BitsOf(buff[..]) == old(BitsOf(buff[..]))[i := v]
  {
    ghost var before := buff[..];
    BitsOfWithBit(before, i, v);
    buff[i / 8] := WithBit(buff[i / 8], i % 8, v);
    assert buff[..] == before[i / 8 := WithBit(before[i / 8], i % 8, v)];
  }

  lemma OverwriteNext(s: bits, pos: nat, f: bits, k: nat)
    requires pos + |f| <= |s| && k < |f|
    ensures Overwrite(s, pos, f[..k])[pos + k := f[k]] == Overwrite(s, pos, f[..k + 1])
  {
  }

  lemma OverwriteNothing(s: bits, pos: nat, f: bits)
    requires pos + |f| <= |s|
    ensures Overwrite(s, pos, f[..0]) == s
  {
  }

  lemma HalfPower(n: nat)
    ensures n > 0 ==> Pow2(n) / 2 == Pow2(n - 1)
  {
  }

  /** setbitu; a width outside 1..32 writes nothing. */
  method SetBitu(buff: array<byte>, pos: nat, len: int, data: uint32)
    requires 1 <= len <= 32 ==> pos + len <= 8 * buff.Length
    modifies buff
    ensures BitsOf(buff[..]) ==
            if 1 <= len <= 32 then Overwrite(old(BitsOf(buff[..])), pos, ToBits(data, len))
            else old(BitsOf(buff[..]))
  {
    hide BitsOf, ToBits, Overwrite, Pow2;
    if len <= 0 || 32 < len { return; }
    ghost var s, f := BitsOf(buff[..]), ToBits(data, len);
    var mask := Pow2(len - 1);
    OverwriteNothing(s, pos, f);
    for k := 0 to len
      invariant k < len ==> mask == Pow2(len - 1 - k)
      invariant BitsOf(buff[..]) == Overwrite(s, pos, f[..k])
    {
      NumeralBit(data, len, k);
      OverwriteNext(s, pos, f, k);
      HalfPower(len - 1 - k);
      SetOneBit(buff, pos + k, data / mask % 2 == 1);
      mask := mask / 2;
    }
    assert f[..len] == f;
  }

  lemma {:induction false} NumeralBit(v: int, n: nat, k: nat)
    requires k < n
    ensures ToBits(v, n)[k] == (v / Pow2(n - 1 - k) % 2 == 1)
    decreases n
  {
    ToBitsTop(v, n);
    if k > 0 {
      NumeralBit(v, n - 1, k - 1);
    }
  }

  /** What setbits writes: the sign of the datum, then its low len - 1 bits. */
  function SetbitsImage(data: int, len: nat): (f: bits)
    requires len >= 1
    ensures |f| == len
  {
    [data < 0] + ToBits(data, len - 1)
  }

  /** The datum with bit len - 1 forced to its sign, as setbits does before it calls setbitu. */
  function ForceSign(data: int, len: nat): int
    requires len >= 1
  {
    var p := Pow2(len - 1);
    var isSet := data / p % 2 == 1;
    if data < 0 then if isSet then data else data + p
    else if isSet then data - p else data
  }

  lemma AddMultiple(v: int, p: int, k: int)
    requires p >= 1
    ensures (v + k * p) / p == v / p + k && (v + k * p) % p == v % p
  {
    assert p * (v / p + k) == p * (v / p) + k * p;
    DivModUnique(v + k * p, p, v / p + k, v % p);
  }

  lemma ForceSignNumeral(data: int, len: nat)
    requires len >= 1
    ensures ToBits(ForceSign(data, len), len) == SetbitsImage(data, len)
  {
    hide ToBits, Pow2;
    var d, p := ForceSign(data, len), Pow2(len - 1);
    AddMultiple(data, p, 1);
    AddMultiple(data, p, -1);
    ToBitsTop(d, len);
    ToBitsCongruent(d, data, len - 1);
  }

  lemma ForceSignImage(data: int, len: nat)
    requires 1 <= len <= 32
    ensures ToBits(ForceSign(data, len) % U32, len) == SetbitsImage(data, len)
  {
    var d := ForceSign(data, len);
    ForceSignNumeral(data, len);
    WordSizes();
    ModMod(d, len, 32);
    ToBitsCongruent(d % U32, d, len);
  }

  method SetBits(buff: array<byte>, pos: nat, len: nat, data: int32)
    requires 1 <= len <= 32 && pos + len <= 8 * buff.Length
    modifies buff
    ensures BitsOf(buff[..]) == Overwrite(old(BitsOf(buff[..])), pos, SetbitsImage(data, len))
  {
    ForceSignImage(data, len);
    SetBitu(buff, pos, len, ForceSign(data, len) % U32);
  }

  /** What setbitg writes. */
  function SetbitgImage(value: int, len: nat): (f: bits)
    requires len >= 1
    ensures |f| == len
  {
    [value < 0] + ToBits(if value < 0 then -value else value, len - 1)
  }

  /** Two adjacent writes are one. */
  lemma OverwriteTwice(s: bits, pos: nat, f: bits, g: bits)
    requires pos + |f| + |g| <= |s|
    ensures Overwrite(Overwrite(s, pos, f), pos + |f|, g) == Overwrite(s, pos, f + g)
  {
  }

  method SetBitg(buff: array<byte>, pos: nat, len: nat, value: int32)
    requires 1 <= len <= 32 && pos + len <= 8 * buff.Length
    requires value > -0x8000_0000  // -value would overflow
    modifies buff
    ensures BitsOf(buff[..]) == Overwrite(old(BitsOf(buff[..])), pos, SetbitgImage(value, len))
  {
    hide BitsOf, ToBits, SetbitgImage, Overwrite;
    ghost var s := BitsOf(buff[..]);
    var sign, magnitude := if value < 0 then 1 else 0, if value < 0 then -value else value;
    SetbitgParts(s, pos, value, len);
    SetBitu(buff, pos, 1, sign);
    SetBitu(buff, pos + 1, len - 1, magnitude);
  }

  lemma SetbitgParts(s: bits, pos: nat, value: int, len: nat)
    requires 1 <= len && pos + len <= |s|
    ensures ToBits(if value < 0 then 1 else 0, 1) == [value < 0]
    ensures Overwrite(Overwrite(s, pos, [value < 0]), pos + 1, ToBits(if value < 0 then -value else value, len - 1))
            == Overwrite(s, pos, SetbitgImage(value, len))
    ensures len == 1 ==> Overwrite(s, pos, [value < 0]) == Overwrite(s, pos, SetbitgImage(value, len))
  {
  }

  /** set38bits: the double is split into floor(value / 64) and what is left, truncated. */
  method Set38Bits(buff: array<byte>, pos: nat, value: real)
    requires pos + 38 <= 8 * buff.Length
    requires -0x20_0000_0000 as real <= value < 0x20_0000_0000 as real
    modifies buff
    ensures BitsOf(buff[..]) == Overwrite(old(BitsOf(buff[..])), pos, ToBits(value.Floor, 38))
  {
    FloorSplit(value);
    var wordH := (value / 64.0).Floor;
    var wordL := (value - wordH as real * 64.0).Floor;
    Set38Words(buff, pos, wordH, wordL, value.Floor);
  }

  method Set38Words(buff: array<byte>, pos: nat, wordH: int32, wordL: uint32, ghost v: int)
    requires pos + 38 <= 8 * buff.Length
    requires -0x20_0000_0000 <= v < 0x20_0000_0000 && wordH == v / 64 && wordL == v % 64
    modifies buff
    ensures BitsOf(buff[..]) == Overwrite(old(BitsOf(buff[..])), pos, ToBits(v, 38))
  {
    Overwrite38(BitsOf(buff[..]), pos, v);
    SetBits(buff, pos, 32, wordH);
    SetBitu(buff, pos + 32, 6, wordL);
  }

  lemma Overwrite38(s: bits, pos: nat, v: int)
    requires pos + 38 <= |s| && -0x20_0000_0000 <= v < 0x20_0000_0000
    ensures Overwrite(Overwrite(s, pos, SetbitsImage(v / 64, 32)), pos + 32, ToBits(v % 64, 6))
            == Overwrite(s, pos, ToBits(v, 38))
  {
    Image38(v);
    OverwriteTwice(s, pos, SetbitsImage(v / 64, 32), ToBits(v % 64, 6));
  }

  lemma Image38(v: int)
    requires -0x20_0000_0000 <= v < 0x20_0000_0000
    ensures ToBits(v, 38) == SetbitsImage(v / 64, 32) + ToBits(v % 64, 6)
  {
    hide ToBits, SetbitsImage;
    WordSizes();
    SetbitsInRange(v / 64, 32);
    ToBitsSplit(v, 32, 6);
    ToBitsCongruent(v % 64, v, 6);
  }

  lemma FloorSplit(value: real)
    requires -0x20_0000_0000 as real <= value < 0x20_0000_0000 as real
    ensures (value / 64.0).Floor == value.Floor / 64
    ensures -0x8000_0000 <= (value / 64.0).Floor < 0x8000_0000
    ensures (value - (value / 64.0).Floor as real * 64.0).Floor == value.Floor % 64
  {
  }

  /** On data in two's complement range setbits writes the two's complement numeral. */
  lemma SetbitsInRange(data: int, len: nat)
    requires 1 <= len
    requires -Pow2(len - 1) <= data < Pow2(len - 1)
    ensures SetbitsImage(data, len) == ToBits(data, len)
  {
    ToBitsTop(data, len);
    DivModRange(data, Pow2(len - 1));
  }

  // -------------------------------------------------------------- round trips

  /** getbits undoes setbits exactly on data in two's complement range. */
  lemma SetbitsRoundTrip(data: int, len: nat)
    requires len >= 1
    ensures Signed(SetbitsImage(data, len)) == data <==> -Pow2(len - 1) <= data < Pow2(len - 1)
  {
    SignedBound(SetbitsImage(data, len));
    if -Pow2(len - 1) <= data < Pow2(len - 1) {
      SetbitsInRange(data, len);
      SignedRoundTrip(data, len);
    }
  }

  /** Whatever the datum, the field's first bit is its sign and the others are its low bits. */
  lemma SetbitsKeepsSign(data: int, len: nat)
    requires len >= 1
    ensures var f := SetbitsImage(data, len); f[0] == (data < 0) && Value(f[1..]) == data % Pow2(len - 1)
  {
    assert SetbitsImage(data, len)[1..] == ToBits(data, len - 1);
    ValueToBits(data, len - 1);
  }

  lemma SetbitgKeepsSign(value: int, len: nat)
    requires len >= 1
    ensures var f := SetbitgImage(value, len);
            f[0] == (value < 0) && Value(f[1..]) == (if value < 0 then -value else value) % Pow2(len - 1)
  {
    var m := if value < 0 then -value else value;
    assert SetbitgImage(value, len)[1..] == ToBits(m, len - 1);
    ValueToBits(m, len - 1);
  }

  /** getbitg undoes setbitg exactly when the magnitude fits. */
  lemma SetbitgRoundTrip(value: int, len: nat)
    requires len >= 1
    ensures SignMagnitude(SetbitgImage(value, len)) == value <==> -Pow2(len - 1) < value < Pow2(len - 1)
  {
    var f, m := SetbitgImage(value, len), if value < 0 then -value else value;
    assert f[1..] == ToBits(m, len - 1);
    UnsignedRoundTrip(m, len - 1);
    ValueBound(f[1..]);
  }

  /** One call of a setter: the field it writes and the datum; a wide datum is a whole number of units. */
  datatype Write =
    | Unsigned(pos: nat, len: nat, data: uint32)
    | TwosComplement(pos: nat, len: nat, sdata: int32)
    | SignMag(pos: nat, len: nat, sdata: int32)
    | Wide38(pos: nat, wide: int)
  {
    function Width(): nat {
      if Wide38? then 38 else len
    }

    /** The calls the setters accept. */
    predicate Valid(nbits: nat) {
      && pos + Width() <= nbits
      && (if Wide38? then -0x20_0000_0000 <= wide < 0x20_0000_0000 else 1 <= len <= 32)
      && (SignMag? ==> sdata > -0x8000_0000)
    }

    /** The datum is one its field can hold. */
    predicate InRange()
      requires !Wide38? ==> len >= 1
    {
      match this
      case Unsigned(_, n, d) => d < Pow2(n)
      case TwosComplement(_, n, d) => -Pow2(n - 1) <= d < Pow2(n - 1)
      case SignMag(_, n, d) => -Pow2(n - 1) < d < Pow2(n - 1)
      case Wide38(_, v) => true
    }

    function Image(): (f: bits)
      requires !Wide38? ==> len >= 1
      ensures |f| == Width()
    {
      match this
      case Unsigned(_, n, d) => ToBits(d, n)
      case TwosComplement(_, n, d) => SetbitsImage(d, n)
      case SignMag(_, n, d) => SetbitgImage(d, n)
      case Wide38(_, v) => ToBits(v, 38)
    }

    /** What the matching getter makes of a field's bits. */
    function Reading(f: bits): int {
      match this
      case Unsigned(_, _, _) => Value(f)
      case TwosComplement(_, _, _) => Signed(f)
      case SignMag(_, _, _) => SignMagnitude(f)
      case Wide38(_, _) => Signed(f)
    }

    function Datum(): int {
      match this
      case Unsigned(_, _, d) => d
      case TwosComplement(_, _, d) => d
      case SignMag(_, _, d) => d
      case Wide38(_, v) => v
    }
  }

  /** The matching getter returns the datum written, exactly when the field can hold it. */
  lemma WriteReadsBack(w: Write, nbits: nat)
    requires w.Valid(nbits)
    ensures w.Reading(w.Image()) == w.Datum() <==> w.InRange()
  {
    hide Value, Signed, SignMagnitude, ToBits, SetbitsImage, SetbitgImage;
    match w
    case Unsigned(_, n, d) => UnsignedRoundTrip(d, n);
    case TwosComplement(_, n, d) => SetbitsRoundTrip(d, n);
    case SignMag(_, n, d) => SetbitgRoundTrip(d, n);
    case Wide38(_, v) =>
      WordSizes();
      SignedRoundTrip(v, 38);
  }

  ghost predicate AllValid(ws: seq<Write>, nbits: nat) {
    forall k :: 0 <= k < |ws| ==> ws[k].Valid(nbits)
  }

  predicate Apart(a: Write, b: Write) {
    a.pos + a.Width() <= b.pos || b.pos + b.Width() <= a.pos
  }

  ghost predicate Disjoint(ws: seq<Write>) {
    forall a, b :: 0 <= a < b < |ws| ==> Apart(ws[a], ws[b])
  }

  /** No field of the writes has bit i. */
  ghost predicate Untouched(ws: seq<Write>, i: nat) {
    forall k :: 0 <= k < |ws| ==> i < ws[k].pos || ws[k].pos + ws[k].Width() <= i
  }

  /** The bits after the first n of the writes. */
  ghost function AfterWrites(s: bits, ws: seq<Write>, n: nat): (r: bits)
    requires AllValid(ws, |s|) && n <= |ws|
    ensures |r| == |s|
  {
    if n == 0 then s
    else
      assert ws[n - 1].Valid(|s|);
      Overwrite(AfterWrites(s, ws, n - 1), ws[n - 1].pos, ws[n - 1].Image())
  }

  lemma {:induction false} FieldKept(s: bits, ws: seq<Write>, n: nat, k: nat)
    requires AllValid(ws, |s|) && Disjoint(ws) && k < n <= |ws|
    ensures ws[k].Valid(|s|) && ws[n - 1].Valid(|s|)
    ensures AfterWrites(s, ws, n)[ws[k].pos..ws[k].pos + ws[k].Width()] == ws[k].Image()
  {
    hide Write.Image;
    assert ws[k].Valid(|s|) && ws[n - 1].Valid(|s|);
    var before, last := AfterWrites(s, ws, n - 1), ws[n - 1];
    if k == n - 1 {
      OverwriteHere(before, last.pos, last.Image());
    } else {
      FieldKept(s, ws, n - 1, k);
      assert Apart(ws[k], last);
      OverwriteElsewhere(before, last.pos, last.Image(), ws[k].pos, ws[k].pos + ws[k].Width());
    }
  }

  /** Every bit outside the fields is what it was. */
  lemma {:induction false} BitKept(s: bits, ws: seq<Write>, n: nat, i: nat)
    requires AllValid(ws, |s|) && n <= |ws| && i < |s| && Untouched(ws, i)
    ensures AfterWrites(s, ws, n)[i] == s[i]
  {
    hide Write.Image;
    if n > 0 {
      assert ws[n - 1].Valid(|s|);
      BitKept(s, ws, n - 1, i);
    }
  }

  method WriteOne(buff: array<byte>, w: Write)
    requires w.Valid(8 * buff.Length)
    modifies buff
    ensures BitsOf(buff[..]) == Overwrite(old(BitsOf(buff[..])), w.pos, w.Image())
  {
    match w
    case Unsigned(p, n, d) => SetBitu(buff, p, n, d);
    case TwosComplement(p, n, d) => SetBits(buff, p, n, d);
    case SignMag(p, n, d) => SetBitg(buff, p, n, d);
    case Wide38(p, v) => Set38Bits(buff, p, v as real);
  }

  /** A whole sequence of setter calls on one buffer. */
  method WriteAll(buff: array<byte>, ws: seq<Write>)
    requires AllValid(ws, 8 * buff.Length)
    modifies buff
    ensures BitsOf(buff[..]) == AfterWrites(old(BitsOf(buff[..])), ws, |ws|)
  {
    hide BitsOf, Write.Image;
    ghost var s := BitsOf(buff[..]);
    for k := 0 to |ws|
      invariant BitsOf(buff[..]) == AfterWrites(s, ws, k)
    {
      assert ws[k].Valid(8 * buff.Length);
      WriteOne(buff, ws[k]);
    }
  }

  /**
   After any sequence of non-overlapping writes, reading a field back with the
   matching getter gives the datum written to it, exactly when the field can
   hold it.
   */
  lemma BitFieldRoundTrip(s: bits, ws: seq<Write>, k: nat)
    requires AllValid(ws, |s|) && Disjoint(ws) && k < |ws|
    ensures ws[k].Valid(|s|)
    ensures var after := AfterWrites(s, ws, |ws|);
            ws[k].Reading(after[ws[k].pos..ws[k].pos + ws[k].Width()]) == ws[k].Datum() <==> ws[k].InRange()
  {
    hide AfterWrites, Write.Image, Write.Reading, Write.InRange, Write.Datum, Disjoint;
    assert ws[k].Valid(|s|);
    FieldKept(s, ws, |ws|, k);
    WriteReadsBack(ws[k], |s|);
  }

  lemma OverwriteHere(s: bits, pos: nat, f: bits)
    requires pos + |f| <= |s|
    ensures Overwrite(s, pos, f)[pos..pos + |f|] == f
  {
  }

  lemma OverwriteElsewhere(s: bits, pos: nat, f: bits, lo: nat, hi: nat)
    requires pos + |f| <= |s| && lo <= hi <= |s|
    requires hi <= pos || pos + |f| <= lo
    ensures Overwrite(s, pos, f)[lo..hi] == s[lo..hi]
  {
  }

  /** RTKLIB's getbits_38 and Go's GetBitsAsInt64 at width 38 read the same number. */
  method Readers38Agree(buff: array<byte>, pos: nat) returns (c: int, go: int64)
    requires pos + 38 <= 8 * buff.Length
    ensures c == go == Signed(BitsOf(buff[..])[pos..pos + 38])
  {
    c := GetBits38(buff, pos);
    go := GetBitsAsInt64(buff[..], pos, 38);
  }
}
