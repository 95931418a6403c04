/**
 Bits, bytes and binary numerals: the vocabulary the codec modules share.

 Bit 0 of a buffer is the most significant bit of its first byte, as in
 RTKLIB's getbitu.  A field is the run of bits that holds it, so a read is a
 slice of the buffer's bits and a write replaces a slice.
 */
module Bits {

  type byte = bv8
  type bits = seq<bool>

  function Pow2(n: nat): (p: int)
    ensures p >= 1
  {
    if n == 0 then 1 else 2 * Pow2(n - 1)
  }

  /** 1u << (7 - k), written out. */
  function Mask(k: nat): byte
    requires k < 8
  {
    match k
    case 0 => 0x80 case 1 => 0x40 case 2 => 0x20 case 3 => 0x10
    case 4 => 0x08 case 5 => 0x04 case 6 => 0x02 case 7 => 0x01
  }

  predicate TestBit(b: byte, k: nat)
    requires k < 8
  {
    b & Mask(k) != 0
  }

  function WithBit(b: byte, k: nat, v: bool): byte
    requires k < 8
  {
    if v then b | Mask(k) else b & !Mask(k)
  }

  lemma TestWithBit(b: byte, k: nat, v: bool, j: nat)
    requires k < 8 && j < 8
    ensures TestBit(WithBit(b, k, v), j) == if j == k then v else TestBit(b, j)
  {
  }

  function BitsOf(buf: seq<byte>): (r: bits)
    ensures |r| == 8 * |buf|
  {
    seq(8 * |buf|, i requires 0 <= i < 8 * |buf| => TestBit(buf[i / 8], i % 8))
  }

  function ByteBits(b: byte): (r: bits)
    ensures |r| == 8
  {
    [TestBit(b, 0), TestBit(b, 1), TestBit(b, 2), TestBit(b, 3),
     TestBit(b, 4), TestBit(b, 5), TestBit(b, 6), TestBit(b, 7)]
  }

  lemma BitsOfByte(b: byte)
    ensures BitsOf([b]) == ByteBits(b)
  {
  }

  lemma BitsOfConcat(a: seq<byte>, b: seq<byte>)
    ensures BitsOf(a + b) == BitsOf(a) + BitsOf(b)
  {
    forall i | 0 <= i < 8 * |a + b|
      ensures BitsOf(a + b)[i] == (BitsOf(a) + BitsOf(b))[i]
    {
      if i >= 8 * |a| {
        assert (i - 8 * |a|) / 8 == i / 8 - |a| && (i - 8 * |a|) % 8 == i % 8;
      }
    }
  }

  lemma BitsOfSlice(s: seq<byte>, lo: nat, hi: nat)
    requires lo <= hi <= |s|
    ensures BitsOf(s)[8 * lo..8 * hi] == BitsOf(s[lo..hi])
  {
    assert s == s[..lo] + (s[lo..hi] + s[hi..]);
    BitsOfConcat(s[..lo], s[lo..hi] + s[hi..]);
    BitsOfConcat(s[lo..hi], s[hi..]);
  }

  lemma BitsOfWithBit(s: seq<byte>, i: nat, v: bool)
    requires i < 8 * |s|
    ensures BitsOf(s[i / 8 := WithBit(s[i / 8], i % 8, v)]) == BitsOf(s)[i := v]
  {
    var t := s[i / 8 := WithBit(s[i / 8], i % 8, v)];
    forall j | 0 <= j < 8 * |s|
      ensures BitsOf(t)[j] == BitsOf(s)[i := v][j]
    {
      TestWithBit(s[i / 8], i % 8, v, j % 8);
      if j / 8 == i / 8 && j % 8 == i % 8 {
        assert j == i;
      }
    }
  }

  lemma ByteBitsInjective(a: byte, b: byte)
    requires ByteBits(a) == ByteBits(b)
    ensures a == b
  {
  }

  /** A buffer is determined by its bits. */
  lemma {:induction false} BitsOfInjective(a: seq<byte>, b: seq<byte>)
    requires BitsOf(a) == BitsOf(b)
    ensures a == b
  {
    assert 8 * |a| == |BitsOf(a)| == |BitsOf(b)| == 8 * |b|;
    forall k | 0 <= k < |a|
      ensures a[k] == b[k]
    {
      BitsOfSlice(a, k, k + 1);
      BitsOfSlice(b, k, k + 1);
      assert a[k..k + 1] == [a[k]] && b[k..k + 1] == [b[k]];
      BitsOfByte(a[k]);
      BitsOfByte(b[k]);
      ByteBitsInjective(a[k], b[k]);
    }
  }

  // ---------------------------------------------------------------- numerals

  /** The unsigned number the first n bits of a run spell, most significant bit first. */
  function Prefix(s: bits, n: nat): nat
    requires n <= |s|
  {
    if n == 0 then 0 else 2 * Prefix(s, n - 1) + (if s[n - 1] then 1 else 0)
  }

  /** The unsigned number a run of bits spells. */
  function Value(s: bits): nat {
    Prefix(s, |s|)
  }

  /** The low n bits of v in two's complement (floor division makes this right for negative v). */
  function ToBits(v: int, n: nat): (s: bits)
    ensures |s| == n
    decreases n
  {
    if n == 0 then [] else ToBits(v / 2, n - 1) + [v % 2 == 1]
  }

  /** The two's complement number a run of bits spells. */
  function Signed(s: bits): int {
    if s != [] && s[0] then Value(s) - Pow2(|s|) else Value(s)
  }

  /** The sign-magnitude number a run of bits spells. */
  function SignMagnitude(s: bits): int {
    var m: int := if s == [] then 0 else Value(s[1..]);
    if s != [] && s[0] then -m else m
  }

  lemma {:induction false} PrefixAgrees(a: bits, b: bits, n: nat)
    requires n <= |a| && n <= |b| && forall i :: 0 <= i < n ==> a[i] == b[i]
    ensures Prefix(a, n) == Prefix(b, n)
  {
    if n > 0 {
      PrefixAgrees(a, b, n - 1);
    }
  }

  lemma ValuePush(s: bits, b: bool)
    ensures Value(s + [b]) == 2 * Value(s) + if b then 1 else 0
  {
    PrefixAgrees(s + [b], s, |s|);
  }

  lemma ValueOne(b: bool)
    ensures Value([b]) == if b then 1 else 0
  {
    ValuePush([], b);
    assert [] + [b] == [b];
  }

  lemma {:induction false} PrefixBound(s: bits, n: nat)
    requires n <= |s|
    ensures Prefix(s, n) < Pow2(n)
  {
    if n > 0 {
      PrefixBound(s, n - 1);
    }
  }

  lemma ValueBound(s: bits)
    ensures Value(s) < Pow2(|s|)
  {
    PrefixBound(s, |s|);
  }

  lemma Double(v: int, p: int, q: int)
    requires q == 2 * p
    ensures v * q == 2 * (v * p)
  {
  }

  lemma {:induction false} PrefixConcat(a: bits, b: bits, n: nat)
    requires n <= |b|
    ensures Prefix(a + b, |a| + n) == Value(a) * Pow2(n) + Prefix(b, n)
  {
    if n == 0 {
      PrefixAgrees(a + b, a, |a|);
    } else {
      PrefixConcat(a, b, n - 1);
      Double(Value(a), Pow2(n - 1), Pow2(n));
    }
  }

  lemma ValueConcat(a: bits, b: bits)
    ensures Value(a + b) == Value(a) * Pow2(|b|) + Value(b)
  {
    PrefixConcat(a, b, |b|);
  }

  lemma ModDouble(v: int, p: int, b: int)
    requires p >= 1 && 0 <= b < 2
    ensures (2 * v + b) % (2 * p) == 2 * (v % p) + b
  {
    var q, r := v / p, v % p;
    assert 2 * v + b == (2 * p) * q + (2 * r + b);
    DivModUnique(2 * v + b, 2 * p, q, 2 * r + b);
  }

  lemma MulNonNegative(a: int, b: int)
    requires a >= 0 && b >= 0
    ensures a * b >= 0
  {
  }

  lemma SmallMultiple(p: int, d: int)
    requires p >= 1 && -p < p * d < p
    ensures d == 0
  {
  }

  lemma DivModUnique(v: int, p: int, q: int, r: int)
    requires p >= 1 && v == p * q + r && 0 <= r < p
    ensures v / p == q && v % p == r
  {
    var q', r' := v / p, v % p;
    assert v == p * q' + r';
    assert p * (q' - q) == p * q' - p * q;
    SmallMultiple(p, q' - q);
  }

  lemma {:induction false} ValueToBits(v: int, n: nat)
    ensures Value(ToBits(v, n)) == v % Pow2(n)
    decreases n
  {
    if n > 0 {
      ValueToBits(v / 2, n - 1);
      ValuePush(ToBits(v / 2, n - 1), v % 2 == 1);
      ModDouble(v / 2, Pow2(n - 1), v % 2);
    }
  }

  lemma {:induction false} ToBitsPrefix(s: bits, n: nat)
    requires n <= |s|
    ensures ToBits(Prefix(s, n), n) == s[..n]
  {
    if n > 0 {
      ToBitsPrefix(s, n - 1);
      assert s[..n] == s[..n - 1] + [s[n - 1]];
    }
  }

  lemma ToBitsValue(s: bits)
    ensures ToBits(Value(s), |s|) == s
  {
    ToBitsPrefix(s, |s|);
    assert s[..|s|] == s;
  }

  /** Two numbers have the same low n bits exactly when they agree modulo 2^n. */
  lemma ToBitsCongruent(v: int, w: int, n: nat)
    ensures ToBits(v, n) == ToBits(w, n) <==> v % Pow2(n) == w % Pow2(n)
  {
    ValueToBits(v, n);
    ValueToBits(w, n);
    ToBitsValue(ToBits(v, n));
    ToBitsValue(ToBits(w, n));
  }

  /** The top bit of the numeral, and the rest: how setbitu walks its mask downwards. */
  lemma {:induction false} ToBitsTop(v: int, n: nat)
    requires n >= 1
    ensures ToBits(v, n) == [(v / Pow2(n - 1)) % 2 == 1] + ToBits(v, n - 1)
    decreases n
  {
    if n > 1 {
      ToBitsTop(v / 2, n - 1);
      DivDiv(v, Pow2(n - 2));
    }
  }

  lemma DivDiv(v: int, p: int)
    requires p >= 1
    ensures (v / 2) / p == v / (2 * p)
  {
    var q, r := (v / 2) / p, (v / 2) % p;
    assert v / 2 == p * q + r;
    assert v == (2 * p) * q + (2 * r + v % 2);
    DivModUnique(v, 2 * p, q, 2 * r + v % 2);
  }

  lemma DivModRange(v: int, p: int)
    requires p >= 1
    ensures -p <= v < 0 ==> v / p == -1 && v % p == v + p
    ensures 0 <= v < p ==> v / p == 0 && v % p == v
    ensures p <= v < 2 * p ==> v / p == 1 && v % p == v - p
  {
  }

  /** An unsigned number survives the trip through n bits exactly when it fits in them. */
  lemma UnsignedRoundTrip(v: nat, n: nat)
    ensures Value(ToBits(v, n)) == v <==> v < Pow2(n)
  {
    ValueToBits(v, n);
    DivModRange(v, Pow2(n));
  }

  lemma SignedBound(s: bits)
    requires s != []
    ensures -Pow2(|s| - 1) <= Signed(s) < Pow2(|s| - 1)
  {
    ValueBound(s[1..]);
    ValueConcat([s[0]], s[1..]);
    assert s == [s[0]] + s[1..];
    ValueOne(s[0]);
  }

  /** A signed number survives the trip through n bits exactly when it is in two's complement range. */
  lemma SignedRoundTrip(v: int, n: nat)
    requires n >= 1
    ensures Signed(ToBits(v, n)) == v <==> -Pow2(n - 1) <= v < Pow2(n - 1)
  {
    var s := ToBits(v, n);
    SignedBound(s);
    if -Pow2(n - 1) <= v < Pow2(n - 1) {
      ValueToBits(v, n);
      ToBitsTop(v, n);
      DivModRange(v, Pow2(n - 1));
      DivModRange(v, Pow2(n));
      assert s[0] == (v < 0);
    }
  }

  lemma ModModProduct(v: int, p: int, k: int)
    requires p >= 1 && k >= 1 && p * k >= 1
    ensures (v % (p * k)) % p == v % p
  {
    var q, r := v / (p * k), v % (p * k);
    var q', r' := r / p, r % p;
    assert v == (p * k) * q + r && r == p * q' + r';
    assert (p * k) * q == p * (k * q);
    assert p * (k * q + q') == p * (k * q) + p * q';
    DivModUnique(v, p, k * q + q', r');
  }

  lemma ModMod(v: int, n: nat, m: nat)
    requires n <= m
    ensures (v % Pow2(m)) % Pow2(n) == v % Pow2(n)
  {
    Pow2Add(n, m - n);
    ModModProduct(v, Pow2(n), Pow2(m - n));
  }

  lemma {:induction false} Pow2Add(a: nat, b: nat)
    ensures Pow2(a + b) == Pow2(a) * Pow2(b)
  {
    if b > 0 {
      Pow2Add(a, b - 1);
    }
  }

  lemma {:induction false} Pow2Monotone(a: nat, b: nat)
    requires a <= b
    ensures Pow2(a) <= Pow2(b)
  {
    if a < b {
      Pow2Monotone(a, b - 1);
    }
  }

  /** A numeral splits into its high and low parts. */
  lemma {:induction false} ToBitsSplit(v: int, a: nat, b: nat)
    ensures ToBits(v, a + b) == ToBits(v / Pow2(b), a) + ToBits(v, b)
    decreases b
  {
    if b > 0 {
      ToBitsSplit(v / 2, a, b - 1);
      DivDiv(v, Pow2(b - 1));
    }
  }

  lemma ShiftedDifference(d: int, a: int, b: int, p: int, bp: int, e: int, r: int)
    requires d == a - b && bp == b * p && r == a * p + e - bp
    ensures r == d * p + e
  {
  }

  lemma SignedConcatNegative(a: bits, b: bits)
    requires a != [] && a[0]
    ensures Value(a + b) - Pow2(|a + b|) == (Value(a) - Pow2(|a|)) * Pow2(|b|) + Value(b)
  {
    ValueConcat(a, b);
    Pow2Add(|a|, |b|);
    assert |a + b| == |a| + |b|;
    assert Pow2(|a + b|) == Pow2(|a|) * Pow2(|b|);
    ShiftedDifference(Value(a) - Pow2(|a|), Value(a), Pow2(|a|), Pow2(|b|), Pow2(|a + b|), Value(b),
                      Value(a + b) - Pow2(|a + b|));
  }

  lemma SignedConcat(a: bits, b: bits)
    requires a != []
    ensures Signed(a + b) == Signed(a) * Pow2(|b|) + Value(b)
  {
    hide Value, Pow2;
    if a[0] {
      SignedConcatNegative(a, b);
      assert Signed(a) == Value(a) - Pow2(|a|);
      assert Signed(a + b) == Value(a + b) - Pow2(|a + b|);
    } else {
      ValueConcat(a, b);
      assert Signed(a) == Value(a);
    }
  }

  // ------------------------------------------------------- from bits to bytes

  function ByteOf(f: bits): (b: byte)
    requires |f| == 8
  {
    (if f[0] then 0x80 else 0) | (if f[1] then 0x40 else 0) | (if f[2] then 0x20 else 0) | (if f[3] then 0x10 else 0) |
    (if f[4] then 0x08 else 0) | (if f[5] then 0x04 else 0) | (if f[6] then 0x02 else 0) | (if f[7] then 0x01 else 0)
  }

  lemma ByteOfBits(f: bits)
    requires |f| == 8
    ensures ByteBits(ByteOf(f)) == f
  {
  }

  /** The buffer with the given bits. */
  function BytesOf(s: bits): (r: seq<byte>)
    requires |s| % 8 == 0
    ensures 8 * |r| == |s|
  {
    if s == [] then [] else [ByteOf(s[..8])] + BytesOf(s[8..])
  }

  lemma {:induction false} BitsOfBytes(s: bits)
    requires |s| % 8 == 0
    ensures BitsOf(BytesOf(s)) == s
  {
    hide ByteOf;
    if s != [] {
      BitsOfBytes(s[8..]);
      BitsOfConcat([ByteOf(s[..8])], BytesOf(s[8..]));
      BitsOfByte(ByteOf(s[..8]));
      ByteOfBits(s[..8]);
    }
  }

  // ------------------------------------------------------------- overwriting

  /** s with the bits from pos on replaced by f. */
  function Overwrite(s: bits, pos: nat, f: bits): (r: bits)
    requires pos + |f| <= |s|
    ensures |r| == |s|
  {
    s[..pos] + f + s[pos + |f|..]
  }
}
