/**
 BNC's bit reader (c/BNC/bits.h): a 64-bit window that slides over the message
 a byte at a time.  It refines the reader that looks at one bit at a time.

 A macro that runs out of bytes makes the decoding function return; here it
 returns false, and the reader must not be used again.
 */
module BitReader {
  import opened Bits
  import opened BitFields
  import opened Frames

  // ------------------------------------------------------------- arithmetic

  lemma MulDistributes(a: int, b: int, k: int)
    ensures (a + b) * k == a * k + b * k
  {
  }

  lemma MulBound(a: int, p: int, k: int)
    requires 0 <= a < p && k >= 1
    ensures 0 <= a * k < p * k
  {
  }

  /** Shifting left in a word keeps the low bits, at the top. */
  lemma ScaledMod(x: int, p: int, k: int)
    requires p >= 1 && k >= 1
    ensures p * k >= 1 && (x * k) % (p * k) == (x % p) * k
  {
    var q, r := x / p, x % p;
    MulBound(r, p, k);
    MulBound(0, p, k);
    assert x * k == (p * k) * q + r * k by {
      assert x == p * q + r;
      MulDistributes(p * q, r, k);
      assert (p * q) * k == (p * k) * q;
    }
    DivModUnique(x * k, p * k, q, r * k);
  }

  lemma ScaledDiv(x: int, p: int, k: int)
    requires p >= 1 && k >= 1
    ensures p * k >= 1 && (x * k) / (p * k) == x / p
  {
    var q, r := x / p, x % p;
    MulBound(r, p, k);
    MulBound(0, p, k);
    assert x * k == (p * k) * q + r * k by {
      assert x == p * q + r;
      MulDistributes(p * q, r, k);
      assert (p * q) * k == (p * k) * q;
    }
    DivModUnique(x * k, p * k, q, r * k);
  }

  // ------------------------------------------------------------ the window

  /** bitfield << n, in 64 bits. */
  function Shl(x: uint64, n: nat): (y: int)
    requires n <= 64
    ensures 0 <= y < U64
  {
    x * Pow2(n) % U64
  }

  /** bitfield << (64 - numbits) brings the unread bits to the top. */
  lemma TopAligned(bitfield: uint64, n: nat)
    requires 1 <= n <= 64
    ensures Shl(bitfield, 64 - n) == bitfield % Pow2(n) * Pow2(64 - n)
  {
    Pow2Add(n, 64 - n);
    WordSizes();
    ScaledMod(bitfield, Pow2(n), Pow2(64 - n));
  }

  /** ... and >> (64 - a) leaves the first a of them. */
  lemma FirstBits(f: bits, a: nat, x: int)
    requires 1 <= a <= |f| <= 64 && x == Value(f) * Pow2(64 - |f|)
    ensures x / Pow2(64 - a) == Value(f[..a])
  {
    var n := |f|;
    hide Value, Pow2;
    Pow2Add(64 - n, n - a);
    assert Pow2(64 - a) == Pow2(n - a) * Pow2(64 - n);
    ScaledDiv(Value(f), Pow2(n - a), Pow2(64 - n));
    assert f == f[..a] + f[a..];
    ValueConcat(f[..a], f[a..]);
    ValueBound(f[a..]);
    DivModUnique(Value(f), Pow2(n - a), Value(f[..a]), Value(f[a..]));
  }

  lemma WindowTop(bitfield: uint64, f: bits, a: nat)
    requires 1 <= a <= |f| <= 64 && bitfield % Pow2(|f|) == Value(f)
    ensures Shl(bitfield, 64 - |f|) / Pow2(64 - a) == Value(f[..a]) < U64
  {
    hide Value, Pow2, Shl;
    TopAligned(bitfield, |f|);
    FirstBits(f, a, Shl(bitfield, 64 - |f|));
    FitsU64(f[..a]);
  }

  /** The same with the shift of a signed word, which rounds down. */
  lemma FirstBitsSigned(f: bits, a: nat, x: int)
    requires 1 <= a <= |f| <= 64 && x == Value(f) * Pow2(64 - |f|) && 0 <= x < U64
    ensures Int64(x) / Pow2(64 - a) == Signed(f[..a])
  {
    FirstBits(f, a, x);
    TopBitOfWord(f, x);
    WordSizes();
    Pow2Add(a, 64 - a);
    hide Value, Pow2;
    assert f[..a][0] == f[0];
    AddMultiple(x, Pow2(64 - a), -Pow2(a));
    NegateProduct(Pow2(a), Pow2(64 - a));
  }

  lemma NegateProduct(a: int, b: int)
    ensures (-a) * b == -(a * b)
  {
  }

  lemma TopBitOfWord(f: bits, x: int)
    requires 1 <= |f| <= 64 && x == Value(f) * Pow2(64 - |f|) && 0 <= x < U64
    ensures f[0] <==> x >= 0x8000_0000_0000_0000
  {
    FirstBits(f, 1, x);
    ValueOne(f[0]);
    assert f[..1] == [f[0]];
    WordSizes();
    DivModRange(x, 0x8000_0000_0000_0000);
  }

  lemma DropBits(f: bits, a: nat, v: int)
    requires a <= |f| && v % Pow2(|f|) == Value(f)
    ensures v % Pow2(|f| - a) == Value(f[a..])
  {
    hide Value, Pow2;
    ModMod(v, |f| - a, |f|);
    assert f == f[..a] + f[a..];
    ValueConcat(f[..a], f[a..]);
    ValueBound(f[a..]);
    DivModUnique(Value(f), Pow2(|f| - a), Value(f[..a]), Value(f[a..]));
  }

  lemma AppendMod(x: int, p: int, b: int)
    requires p >= 1 && 0 <= b < 256
    ensures 256 * p >= 1 && (256 * x + b) % (256 * p) == 256 * (x % p) + b
  {
    var q, r := x / p, x % p;
    assert 256 * x + b == (256 * p) * q + (256 * r + b);
    DivModUnique(256 * x + b, 256 * p, q, 256 * r + b);
  }

  /** (bitfield << 8) | byte, in 64 bits. */
  lemma ShlPlus(bitfield: uint64, b: int)
    requires 0 <= b < 256
    ensures Shl(bitfield, 8) + b == (256 * bitfield + b) % U64 < U64
  {
    WordSizes();
    ScaledMod(bitfield, 0x100_0000_0000_0000, 256);
    AppendMod(bitfield, 0x100_0000_0000_0000, b);
  }

  /** The same on the bits that are looked at. */
  lemma LoadByte(bitfield: uint64, f: bits, b: bits)
    requires |b| == 8 && |f| <= 56 && bitfield % Pow2(|f|) == Value(f)
    ensures Shl(bitfield, 8) + Value(b) < U64
    ensures (Shl(bitfield, 8) + Value(b)) % Pow2(|f| + 8) == Value(f + b)
  {
    ValueConcat(f, b);
    ValueBound(b);
    WordSizes();
    hide Value, Shl, Pow2;
    var y := 256 * bitfield + Value(b);
    ShlPlus(bitfield, Value(b));
    ModMod(y, |f| + 8, 64);
    Pow2Add(8, |f|);
    AppendMod(bitfield, Pow2(|f|), Value(b));
  }

  // ------------------------------------------------------------ the macros

  /** The low n bits of the word are the bits f. */
  predicate Window(bitfield: uint64, n: nat, f: bits) {
    bitfield % Pow2(n) == Value(f)
  }

  class BitReader {
    const buffer: seq<byte>
    var data: nat       // index of the next byte
    var size: int       // bytes that may still be loaded
    var bitfield: uint64
    var numbits: nat    // how many bits of the window are unread

    constructor (message: seq<byte>)
      ensures Loaded() && numbits <= 7 && Position() == 0 && buffer == message
    {
      buffer := message;
      data := 0;
      size := |message|;
      bitfield := 0;
      numbits := 0;
      new;
      assert Value([]) == 0 && Pow2(0) == 1;
    }

    ghost function Message(): bits {
      BitsOf(buffer)
    }

    /** How many bits have been read. */
    ghost function Position(): int
      reads this
    {
      8 * data - numbits
    }

    /** The window holds the bits between the read position and the load position. */
    ghost predicate Loaded()
      reads this
    {
      && size >= 0 && data + size == |buffer|
      && numbits <= 8 * data && numbits <= 64
      && Window(bitfield, numbits, Message()[Position()..8 * data])
    }

    /** The state between two reads. */
    ghost predicate Valid()
      reads this
    {
      Loaded() && numbits <= 7
    }

    /** bitfield = (bitfield << 8) | *(data++) */
    method LoadOne()
      requires Loaded() && size > 0 && numbits <= 56
      modifies this`data, this`size, this`bitfield, this`numbits
      ensures Loaded() && Position() == old(Position()) && size == old(size) - 1 && numbits == old(numbits) + 8
    {
      hide Value, Pow2, Shl, BitsOf;
      NextByte(buffer, data, Position(), bitfield, numbits);
      size := size - 1;
      bitfield := Shl(bitfield, 8) + buffer[data] as int;
      data := data + 1;
      numbits := numbits + 8;
    }

    /** LOADBITS: widths up to 57, or as far as seven more bytes go. */
    method LoadBits(a: nat) returns (ok: bool)
      requires Loaded() && (a <= 57 || a <= numbits + 56) && numbits <= 7
      modifies this`data, this`size, this`bitfield, this`numbits
      ensures ok <==> old(Position()) + a <= |Message()|
      ensures ok ==> Loaded() && Position() == old(Position()) && a <= numbits
      ensures ok ==> numbits == old(numbits) || numbits < a + 8
    {
      hide Value, Pow2, BitsOf;
      ghost var before, k := numbits, 0;
      while a > numbits
        invariant Loaded() && Position() == old(Position())
        invariant numbits == before + 8 * k && (k > 0 ==> numbits < a + 8)
        decreases size
      {
        if size == 0 {
          size := -1;
          return false;
        }
        LoadOne();
        k := k + 1;
      }
      return true;
    }

    /** GETBITS on up to 56 bits, or on 57 to 63 if seven more bytes will do. */
    method GetBits(a: nat) returns (ok: bool, b: uint64)
      requires Valid() && 1 <= a && (a <= 56 || a <= numbits + 56)
      modifies this`data, this`size, this`bitfield, this`numbits
      ensures ok <==> old(Position()) + a <= |Message()|
      ensures ok ==> Valid() && Position() == old(Position()) + a
      ensures ok ==> b == Value(Message()[old(Position())..Position()])
    {
      hide Value, Pow2, Shl, BitsOf;
      ok := LoadBits(a);
      if !ok {
        return false, 0;
      }
      b := TopBits(a);
      Consume(a);
    }

    /** GETBITS64: beyond 56 bits the window may have to be emptied on the way; the two parts do not overlap. */
    method GetBits64(a: nat) returns (ok: bool, b: uint64)
      requires Valid() && 1 <= a <= 64
      modifies this`data, this`size, this`bitfield, this`numbits
      ensures ok <==> old(Position()) + a <= |Message()|
      ensures ok ==> Valid() && Position() == old(Position()) + a
      ensures ok ==> b == Value(Message()[old(Position())..Position()])
    {
      hide Value, Pow2, Shl, BitsOf;
      if a > 56 && a - 56 > numbits {
        ghost var pos := Position();
        var x;
        ok, x := GetBits(56);
        if !ok {
          return false, 0;
        }
        ok := LoadBits(a - 56);
        if !ok {
          return false, 0;
        }
        var y := TopBits(a - 56);
        JoinParts(Message(), pos, a, x, y);
        b := Shl(x, a - 56) + y;
        Consume(a - 56);
      } else {
        ok, b := GetBits(a);
      }
    }

    /** GETBITSSIGN */
    method GetBitsSign(a: nat) returns (ok: bool, b: int)
      requires Valid() && 1 <= a <= 56
      modifies this`data, this`size, this`bitfield, this`numbits
      ensures ok <==> old(Position()) + a <= |Message()|
      ensures ok ==> Valid() && Position() == old(Position()) + a
      ensures ok ==> b == Signed(Message()[old(Position())..Position()])
    {
      hide Value, Pow2, Shl, BitsOf;
      ok := LoadBits(a);
      if !ok {
        return false, 0;
      }
      ghost var f := Message()[Position()..8 * data];
      TopAligned(bitfield, numbits);
      FirstBitsSigned(f, a, Shl(bitfield, 64 - numbits));
      assert f[..a] == Message()[Position()..Position() + a];
      b := Int64(Shl(bitfield, 64 - numbits)) / Pow2(64 - a);
      Consume(a);
    }

    /** GETFLOATSIGNM, before the result is scaled. */
    method GetFloatSignM(a: nat) returns (ok: bool, b: int)
      requires Valid() && 2 <= a <= 56
      modifies this`data, this`size, this`bitfield, this`numbits
      ensures ok <==> old(Position()) + a <= |Message()|
      ensures ok ==> Valid() && Position() == old(Position()) + a
      ensures ok ==> b == SignMagnitude(Message()[old(Position())..Position()])
    {
      hide Value, Pow2, Shl, BitsOf, SignMagnitude;
      ok := LoadBits(a);
      if !ok {
        return false, 0;
      }
      ghost var f := Message()[Position()..8 * data];
      assert f[..a] == Message()[Position()..Position() + a];
      SignAndMagnitude(bitfield, f, a);
      var l := Shl(bitfield, 64 - numbits) / Pow2(64 - 1);
      b := Shl(bitfield, 64 - (numbits - 1)) / Pow2(64 - (a - 1));
      if l != 0 {
        b := -b;
      }
      Consume(a);
    }

    method SkipBits(a: nat) returns (ok: bool)
      requires Valid() && a <= 56
      modifies this`data, this`size, this`bitfield, this`numbits
      ensures ok <==> old(Position()) + a <= |Message()|
      ensures ok ==> Valid() && Position() == old(Position()) + a
    {
      ok := LoadBits(a);
      if ok {
        Consume(a);
      }
    }

    /** (bitfield << (64 - numbits)) >> (64 - a) */
    method TopBits(a: nat) returns (b: uint64)
      requires Loaded() && 1 <= a <= numbits
      ensures b == Value(Message()[Position()..Position() + a])
    {
      hide Value, Pow2, Shl, BitsOf;
      ghost var f := Message()[Position()..8 * data];
      assert f[..a] == Message()[Position()..Position() + a];
      WindowTop(bitfield, f, a);
      b := Shl(bitfield, 64 - numbits) / Pow2(64 - a);
    }

    method Consume(a: nat)
      requires Loaded() && a <= numbits
      modifies this`numbits
      ensures Loaded() && Position() == old(Position()) + a && numbits == old(numbits) - a
    {
      hide Value, Pow2;
      ghost var f := Message()[Position()..8 * data];
      DropBits(f, a, bitfield);
      assert f[a..] == Message()[Position() + a..8 * data];
      numbits := numbits - a;
    }
  }

  lemma JoinParts(s: bits, pos: nat, a: nat, x: uint64, y: uint64)
    requires 57 <= a <= 64 && pos + a <= |s|
    requires x == Value(s[pos..pos + 56]) && y == Value(s[pos + 56..pos + 56 + (a - 56)])
    ensures Shl(x, a - 56) + y == Value(s[pos..pos + a]) < U64
  {
    hide Value, Pow2;
    var f, g := s[pos..pos + 56], s[pos + 56..pos + 56 + (a - 56)];
    assert s[pos..pos + a] == f + g;
    ValueConcat(f, g);
    FitsU64(f + g);
    MulNonNegative(x, Pow2(a - 56));
    DivModRange(x * Pow2(a - 56), U64);
  }

  lemma SignAndMagnitude(bitfield: uint64, f: bits, a: nat)
    requires 2 <= a <= |f| <= 64 && bitfield % Pow2(|f|) == Value(f)
    ensures var l, m := Shl(bitfield, 64 - |f|) / Pow2(64 - 1), Shl(bitfield, 64 - (|f| - 1)) / Pow2(64 - (a - 1));
            SignMagnitude(f[..a]) == if l != 0 then -m else m
  {
    hide Value, Pow2, Shl;
    WindowTop(bitfield, f, 1);
    assert f[..1] == [f[0]] && f[..a][0] == f[0];
    ValueOne(f[0]);
    DropBits(f, 1, bitfield);
    WindowTop(bitfield, f[1..], a - 1);
    assert f[1..][..a - 1] == f[..a][1..];
  }

  lemma NextByte(buffer: seq<byte>, data: nat, pos: nat, bitfield: uint64, numbits: nat)
    requires data < |buffer| && pos + numbits == 8 * data && numbits <= 56
    requires bitfield % Pow2(numbits) == Value(BitsOf(buffer)[pos..8 * data])
    ensures Shl(bitfield, 8) + buffer[data] as int < U64
    ensures (Shl(bitfield, 8) + buffer[data] as int) % Pow2(numbits + 8) == Value(BitsOf(buffer)[pos..8 * (data + 1)])
  {
    hide Value, Pow2, Shl;
    var s := BitsOf(buffer);
    BitsOfOne(buffer, data);
    ByteValue(buffer[data]);
    assert s[pos..8 * (data + 1)] == s[pos..8 * data] + s[8 * data..8 * data + 8];
    LoadByte(bitfield, s[pos..8 * data], ByteBits(buffer[data]));
  }

  // ----------------------------------------------- sequences of reads

  /** One macro call: what kind of field, and how wide. */
  datatype Read = Unsigned(width: nat) | TwosComplement(width: nat) | SignMag(width: nat) | Skip(width: nat)
  {
    /** The widths the macros serve; unsigned fields go through GETBITS64. */
    predicate Valid() {
      match this
      case Unsigned(a) => 1 <= a <= 64
      case TwosComplement(a) => 1 <= a <= 56
      case SignMag(a) => 2 <= a <= 56
      case Skip(a) => a <= 56
    }

    /** The number the simple reader of the same kind makes of the field. */
    function Of(f: bits): int {
      match this
      case Unsigned(_) => Value(f)
      case TwosComplement(_) => Signed(f)
      case SignMag(_) => SignMagnitude(f)
      case Skip(_) => 0
    }
  }

  /** The numbers a sequence of reads at the cumulative positions gives, or None if the bits run out. */
  function SimpleReads(s: bits, pos: nat, calls: seq<Read>): Option<seq<int>>
    decreases |calls|
  {
    if calls == [] then Some([])
    else
      var next := pos + calls[0].width;
      if next > |s| then None
      else
        match SimpleReads(s, next, calls[1..])
        case None => None
        case Some(vs) => Some([calls[0].Of(s[pos..next])] + vs)
  }

  method ReadOne(r: BitReader, read: Read) returns (ok: bool, v: int)
    requires r.Valid() && read.Valid()
    modifies r
    ensures ok <==> old(r.Position()) + read.width <= |r.Message()|
    ensures ok ==> r.Valid() && r.Position() == old(r.Position()) + read.width
    ensures ok ==> v == read.Of(r.Message()[old(r.Position())..r.Position()])
  {
    hide Value, Signed, SignMagnitude, BitsOf, Pow2;
    match read
    case Unsigned(a) => ok, v := r.GetBits64(a);
    case TwosComplement(a) => ok, v := r.GetBitsSign(a);
    case SignMag(a) => ok, v := r.GetFloatSignM(a);
    case Skip(a) =>
      ok := r.SkipBits(a);
      v := 0;
  }

  /**
   Any sequence of macro calls returns what the simple reader returns at the
   cumulative position, fails exactly when the bits run out, and leaves at most
   seven bits in the window between two calls.
   */
  method ReadFields(r: BitReader, calls: seq<Read>) returns (vs: Option<seq<int>>)
    requires r.Valid() && forall k :: 0 <= k < |calls| ==> calls[k].Valid()
    modifies r
    ensures vs == SimpleReads(r.Message(), old(r.Position()), calls)
    ensures vs.Some? ==> r.Valid()
  {
    hide BitsOf, Pow2, Value, Window, SimpleReads, Prepend;
    ghost var s, start := r.Message(), r.Position();
    var k, done := 0, [];
    SimpleEnds(s, start, calls);
    while k < |calls|
      invariant k <= |calls| && r.Valid() && 0 <= r.Position()
      invariant SimpleReads(s, start, calls) == Prepend(done, SimpleReads(s, r.Position(), calls[k..]))
    {
      ghost var pos := r.Position();
      SimpleStep(s, pos, calls, k, done);
      var ok, v := ReadOne(r, calls[k]);
      if !ok {
        return None;
      }
      done := done + [v];
      k := k + 1;
    }
    return Some(done);
  }

  function Prepend(done: seq<int>, rest: Option<seq<int>>): Option<seq<int>> {
    if rest.None? then None else Some(done + rest.value)
  }

  lemma SimpleEnds(s: bits, pos: nat, calls: seq<Read>)
    ensures Prepend([], SimpleReads(s, pos, calls[0..])) == SimpleReads(s, pos, calls) &&
            forall done :: Prepend(done, None) == None
    ensures forall p: nat, done: seq<int> :: Prepend(done, SimpleReads(s, p, calls[|calls|..])) == Some(done)
  {
    assert calls[0..] == calls && calls[|calls|..] == [];
    forall p: nat, done: seq<int>
      ensures Prepend(done, SimpleReads(s, p, calls[|calls|..])) == Some(done)
    {
      assert done + [] == done;
    }
    if SimpleReads(s, pos, calls).Some? {
      assert [] + SimpleReads(s, pos, calls).value == SimpleReads(s, pos, calls).value;
    }
  }

  lemma SimpleStep(s: bits, pos: nat, calls: seq<Read>, k: nat, done: seq<int>)
    requires k < |calls|
    ensures var next := pos + calls[k].width;
            if next > |s| then SimpleReads(s, pos, calls[k..]) == None
            else Prepend(done, SimpleReads(s, pos, calls[k..])) ==
                 Prepend(done + [calls[k].Of(s[pos..next])], SimpleReads(s, next, calls[k + 1..]))
  {
    hide Value, BitsOf;
    var next, rest := pos + calls[k].width, calls[k..];
    assert rest[0] == calls[k] && rest[1..] == calls[k + 1..];
    if next <= |s| {
      match SimpleReads(s, next, rest[1..])
      case None =>
      case Some(vs) =>
        var v := calls[k].Of(s[pos..next]);
        assert SimpleReads(s, pos, rest) == Some([v] + vs);
        assert done + ([v] + vs) == (done + [v]) + vs;
    }
  }

  /** The same sequence of reads with the one-bit-at-a-time readers of RTKLIB and Go. */
  method ReadFieldsSimply(buff: array<byte>, calls: seq<Read>) returns (vs: Option<seq<int>>)
    requires forall k :: 0 <= k < |calls| ==> calls[k].Valid() && (calls[k].SignMag? ==> calls[k].width <= 32)
    ensures vs == SimpleReads(BitsOf(buff[..]), 0, calls)
  {
    hide BitsOf, Pow2, Value, SimpleReads, Prepend;
    ghost var s := BitsOf(buff[..]);
    var k, pos, done := 0, 0, [];
    SimpleEnds(s, 0, calls);
    while k < |calls|
      invariant k <= |calls| && 0 <= pos
      invariant SimpleReads(s, 0, calls) == Prepend(done, SimpleReads(s, pos, calls[k..]))
    {
      var a := calls[k].width;
      SimpleStep(s, pos, calls, k, done);
      if pos + a > 8 * buff.Length {
        return None;
      }
      var v := ReadOneSimply(buff, pos, calls[k]);
      done := done + [v];
      pos := pos + a;
      k := k + 1;
    }
    return Some(done);
  }

  method ReadOneSimply(buff: array<byte>, pos: nat, read: Read) returns (v: int)
    requires read.Valid() && (read.SignMag? ==> read.width <= 32) && pos + read.width <= 8 * buff.Length
    ensures v == read.Of(BitsOf(buff[..])[pos..pos + read.width])
  {
    hide BitsOf, Pow2, Value, Signed, SignMagnitude;
    match read
    case Unsigned(a) => v := GetBitsAsUint64(buff[..], pos, a);
    case TwosComplement(a) => v := GetTwosComplement(buff, pos, a);
    case SignMag(a) => v := GetBitg(buff, pos, a);
    case Skip(_) => v := 0;
  }

  method GetTwosComplement(buff: array<byte>, pos: nat, len: nat) returns (r: int)
    requires 1 <= len <= 64 && pos + len <= 8 * buff.Length
    ensures r == Signed(BitsOf(buff[..])[pos..pos + len])
  {
    if len <= 32 {
      r := GetBits(buff, pos, len);
    } else {
      r := GetBitsAsInt64(buff[..], pos, len);
    }
  }
}
