/**
 Fields one after another in a message: what a run of writes leaves in the
 buffer, and what reading at the running position gives back.  RTKLIB's
 encoders and decoders are such runs, with a moving bit position i.
 */
module Layout {
  import opened Bits
  import opened BitFields

  /** The bits of s from pos on begin with f. */
  predicate Holds(s: bits, pos: nat, f: bits) {
    pos + |f| <= |s| && s[pos..pos + |f|] == f
  }

  lemma HoldsBoth(s: bits, pos: nat, f: bits, g: bits)
    requires Holds(s, pos, f + g)
    ensures Holds(s, pos, f) && Holds(s, pos + |f|, g)
  {
    var t := s[pos..pos + |f + g|];
    assert t[..|f|] == f && t[|f|..] == g;
    assert s[pos..pos + |f|] == t[..|f|];
    assert s[pos + |f|..pos + |f| + |g|] == t[|f|..];
  }

  lemma HoldsRoom(s: bits, pos: nat, f: bits)
    requires Holds(s, pos, f)
    ensures pos + |f| <= |s|
  {
  }

  lemma FieldHolds(s: bits, pos: nat, v: int, n: nat)
    requires Holds(s, pos, ToBits(v, n))
    ensures pos + n <= |s| && Value(s[pos..pos + n]) == v % Pow2(n)
  {
    ValueToBits(v, n);
  }

  // ------------------------------------------------------------ running writes

  /** setbitu(buff,i,len,data); i+=len; where the bits of w stand between start and i. */
  method PutBits(buff: array<byte>, i: nat, len: nat, data: uint32, ghost s: bits, ghost start: nat, ghost w: bits)
    returns (next: nat, ghost w': bits)
    requires 1 <= len <= 32 && i + len <= 8 * buff.Length == |s|
    requires i == start + |w| && BitsOf(buff[..]) == Overwrite(s, start, w)
    modifies buff
    ensures next == i + len == start + |w'| && w' == w + ToBits(data, len)
    ensures BitsOf(buff[..]) == Overwrite(s, start, w')
  {
    hide BitsOf, ToBits;
    OverwriteTwice(s, start, w, ToBits(data, len));
    SetBitu(buff, i, len, data);
    return i + len, w + ToBits(data, len);
  }

  /** The same with setbits. */
  method PutSigned(buff: array<byte>, i: nat, len: nat, data: int32, ghost s: bits, ghost start: nat, ghost w: bits)
    returns (next: nat, ghost w': bits)
    requires 1 <= len <= 32 && i + len <= 8 * buff.Length == |s|
    requires i == start + |w| && BitsOf(buff[..]) == Overwrite(s, start, w)
    modifies buff
    ensures next == i + len == start + |w'| && w' == w + SetbitsImage(data, len)
    ensures BitsOf(buff[..]) == Overwrite(s, start, w')
  {
    hide BitsOf, SetbitsImage;
    OverwriteTwice(s, start, w, SetbitsImage(data, len));
    SetBits(buff, i, len, data);
    return i + len, w + SetbitsImage(data, len);
  }

  // ------------------------------------------------------------------ columns

  /** The two functions that write the fields of a column. */
  datatype Setter = Setbitu | Setbits

  /** The data of a column: unsigned ints or ints.  An int that goes to setbitu is converted. */
  predicate Settable(v: int, signed: bool) {
    if signed then -0x8000_0000 <= v < 0x8000_0000 else 0 <= v < U32
  }

  /** The values the field can hold. */
  predicate FitsWidth(v: int, width: nat, signed: bool)
    requires width >= 1
  {
    if signed then -Pow2(width - 1) <= v < Pow2(width - 1) else 0 <= v < Pow2(width)
  }

  predicate ColumnFits(values: seq<int>, width: nat, signed: bool)
    requires width >= 1
  {
    forall k :: 0 <= k < |values| ==> FitsWidth(values[k], width, signed)
  }

  function FieldBits(v: int, width: nat, setter: Setter): (f: bits)
    requires width >= 1
    ensures |f| == width
  {
    if setter == Setbits then SetbitsImage(v, width) else ToBits(v, width)
  }

  function FieldValue(f: bits, signed: bool): int {
    if signed then Signed(f) else Value(f)
  }

  lemma FieldRoundTrip(v: int, width: nat, setter: Setter, signed: bool)
    requires width >= 1 && if signed then true else setter == Setbitu && v >= 0
    ensures FieldValue(FieldBits(v, width, setter), signed) == v <==> FitsWidth(v, width, signed)
  {
    hide Signed, Value, ToBits, SetbitsImage;
    if setter == Setbits {
      SetbitsRoundTrip(v, width);
    } else if signed {
      SignedRoundTrip(v, width);
    } else {
      UnsignedRoundTrip(v, width);
    }
  }

  function ColumnBits(width: nat, setter: Setter, values: seq<int>): bits
    requires width >= 1
  {
    if values == [] then [] else FieldBits(values[0], width, setter) + ColumnBits(width, setter, values[1..])
  }

  /** What a decoder's loop over n fields reads. */
  function ReadColumn(s: bits, pos: nat, width: nat, signed: bool, n: nat): (vs: seq<int>)
    requires width >= 1 && pos + Extent(n, width) <= |s|
    ensures |vs| == n
    decreases n
  {
    if n == 0 then []
    else
      ColumnStep(n, width);
      [FieldValue(s[pos..pos + width], signed)] + ReadColumn(s, pos + width, width, signed, n - 1)
  }

  /** The number of bits in n fields. */
  function Extent(n: nat, width: nat): nat {
    MulNonNegative(n, width);
    n * width
  }

  lemma ColumnStep(n: nat, width: nat)
    requires n >= 1
    ensures Extent(n, width) == width + Extent(n - 1, width)
  {
  }

  lemma ColumnEnds(width: nat)
    ensures Extent(0, width) == 0
  {
  }

  lemma {:induction false} ColumnLength(width: nat, setter: Setter, values: seq<int>)
    requires width >= 1
    ensures |ColumnBits(width, setter, values)| == Extent(|values|, width)
  {
    if values != [] {
      ColumnLength(width, setter, values[1..]);
      ColumnStep(|values|, width);
    }
  }

  /** A column reads back as the values written exactly when each of them fits its field. */
  lemma {:induction false} ColumnRoundTrip(s: bits, pos: nat, width: nat, setter: Setter, signed: bool,
                                           values: seq<int>)
    requires width >= 1 && (setter == Setbits ==> signed) && Holds(s, pos, ColumnBits(width, setter, values))
    requires forall k :: 0 <= k < |values| ==> signed || values[k] >= 0
    ensures pos + Extent(|values|, width) <= |s|
    ensures ReadColumn(s, pos, width, signed, |values|) == values <==> ColumnFits(values, width, signed)
    decreases |values|
  {
    hide FieldValue, FieldBits, FitsWidth, Extent;
    ColumnLength(width, setter, values);
    if values != [] {
      ColumnStep(|values|, width);
      HoldsBoth(s, pos, FieldBits(values[0], width, setter), ColumnBits(width, setter, values[1..]));
      ColumnRoundTrip(s, pos + width, width, setter, signed, values[1..]);
      FieldRoundTrip(values[0], width, setter, signed);
      AllOrFirst(values, width, signed);
      var vs := ReadColumn(s, pos, width, signed, |values|);
      assert vs[1..] == ReadColumn(s, pos + width, width, signed, |values| - 1);
      assert vs == values <==> vs[0] == values[0] && vs[1..] == values[1..] by {
        assert vs == [vs[0]] + vs[1..] && values == [values[0]] + values[1..];
      }
    }
  }

  lemma AllOrFirst(values: seq<int>, width: nat, signed: bool)
    requires width >= 1 && values != []
    ensures ColumnFits(values, width, signed) <==>
            FitsWidth(values[0], width, signed) && ColumnFits(values[1..], width, signed)
  {
  }

  /** An encoder's loop over a column. */
  method PutColumn(buff: array<byte>, i: nat, width: nat, setter: Setter, signed: bool, values: seq<int>,
                   ghost s: bits, ghost start: nat, ghost w: bits)
    returns (next: nat, ghost w': bits)
    requires 1 <= width <= 32 && i + Extent(|values|, width) <= 8 * buff.Length == |s|
    requires i == start + |w| && BitsOf(buff[..]) == Overwrite(s, start, w)
    requires (setter == Setbits ==> signed) && forall k :: 0 <= k < |values| ==> Settable(values[k], signed)
    modifies buff
    ensures next == i + Extent(|values|, width) == start + |w'| && w' == w + ColumnBits(width, setter, values)
    ensures BitsOf(buff[..]) == Overwrite(s, start, w')
  {
    hide BitsOf, ToBits, SetbitsImage, Extent;
    ColumnEnds(width);
    next, w' := i, w;
    var j := 0;
    assert values[0..] == values;
    while j < |values|
      invariant j <= |values| && next == start + |w'| &&
                next + Extent(|values| - j, width) == i + Extent(|values|, width)
      invariant w' + ColumnBits(width, setter, values[j..]) == w + ColumnBits(width, setter, values)
      invariant BitsOf(buff[..]) == Overwrite(s, start, w')
    {
      ColumnStep(|values| - j, width);
      assert values[j..][1..] == values[j + 1..];
      Regroup(w', FieldBits(values[j], width, setter), ColumnBits(width, setter, values[j + 1..]));
      if setter == Setbits {
        next, w' := PutSigned(buff, next, width, values[j], s, start, w');
      } else {
        AsUint32(values[j], width);
        next, w' := PutBits(buff, next, width, values[j] % U32, s, start, w');
      }
      j := j + 1;
    }
  }

  /** An int converted to an unsigned int has the same low bits. */
  lemma AsUint32(v: int, width: nat)
    requires width <= 32
    ensures ToBits(v % U32, width) == ToBits(v, width)
  {
    WordSizes();
    ModMod(v, width, 32);
    ToBitsCongruent(v % U32, v, width);
  }

  lemma Regroup(a: bits, b: bits, c: bits)
    ensures a + (b + c) == (a + b) + c
  {
  }

  lemma ExtentStep(n: nat, width: nat)
    ensures Extent(0, width) == 0 && Extent(n + 1, width) == Extent(n, width) + width
  {
  }

  lemma ExtentGrows(a: nat, b: nat, width: nat)
    requires a <= b
    ensures Extent(a, width) <= Extent(b, width)
  {
  }

  lemma NextPlace(pos: int, width: int, j: int)
    ensures pos + width + width * (j - 1) == pos + width * j
  {
  }

  /** Where the numbers of a column are read. */
  lemma {:induction false} ColumnPlaces(s: bits, pos: nat, width: nat, signed: bool, n: nat)
    requires width >= 1 && pos + Extent(n, width) <= |s|
    ensures forall j :: 0 <= j < n ==>
              && 0 <= pos + width * j && pos + width * j + width <= |s|
              && ReadColumn(s, pos, width, signed, n)[j] ==
                   FieldValue(s[pos + width * j..pos + width * j + width], signed)
    decreases n
  {
    hide FieldValue, Extent;
    if n > 0 {
      ColumnStep(n, width);
      ExtentGrows(0, n - 1, width);
      ColumnPlaces(s, pos + width, width, signed, n - 1);
      forall j | 0 <= j < n
        ensures 0 <= pos + width * j && pos + width * j + width <= |s|
        ensures ReadColumn(s, pos, width, signed, n)[j] ==
                FieldValue(s[pos + width * j..pos + width * j + width], signed)
      {
        NextPlace(pos, width, j);
        if j > 0 {
          assert ReadColumn(s, pos, width, signed, n)[j] == ReadColumn(s, pos + width, width, signed, n - 1)[j - 1];
        } else {
          ExtentStep(0, width);
        }
      }
    }
  }

  /** Where they are written. */
  lemma {:induction false} ColumnBitsPlaces(s: bits, pos: nat, width: nat, setter: Setter, values: seq<int>)
    requires width >= 1 && Holds(s, pos, ColumnBits(width, setter, values))
    ensures forall j :: 0 <= j < |values| ==>
              && 0 <= pos + width * j && pos + width * j + width <= |s|
              && s[pos + width * j..pos + width * j + width] == FieldBits(values[j], width, setter)
    decreases |values|
  {
    hide FieldBits;
    if values != [] {
      HoldsBoth(s, pos, FieldBits(values[0], width, setter), ColumnBits(width, setter, values[1..]));
      ColumnBitsPlaces(s, pos + width, width, setter, values[1..]);
      forall j | 0 <= j < |values|
        ensures 0 <= pos + width * j && pos + width * j + width <= |s|
        ensures s[pos + width * j..pos + width * j + width] == FieldBits(values[j], width, setter)
      {
        NextPlace(pos, width, j);
        if j > 0 {
          assert values[j] == values[1..][j - 1];
        }
      }
    }
  }

  /** The last field of a column comes after those before it. */
  lemma {:induction false} ReadPush(s: bits, pos: nat, width: nat, signed: bool, n: nat)
    requires width >= 1 && pos + Extent(n + 1, width) <= |s|
    ensures Extent(n + 1, width) == Extent(n, width) + width
    ensures var last := pos + Extent(n, width);
            ReadColumn(s, pos, width, signed, n + 1) ==
              ReadColumn(s, pos, width, signed, n) + [FieldValue(s[last..last + width], signed)]
    decreases n
  {
    hide FieldValue, Extent;
    ExtentStep(n, width);
    if n > 0 {
      ColumnStep(n, width);
      ColumnStep(n + 1, width);
      ReadPush(s, pos + width, width, signed, n - 1);
    } else {
      ExtentStep(0, width);
    }
  }

  /** A decoder's loop over a column. */
  method GetColumn(buff: array<byte>, i: nat, width: nat, signed: bool, n: nat) returns (values: seq<int>, next: nat)
    requires 1 <= width <= 32 && i + Extent(n, width) <= 8 * buff.Length
    ensures values == ReadColumn(BitsOf(buff[..]), i, width, signed, n) && next == i + Extent(n, width)
  {
    hide BitsOf, Value, Signed, Extent;
    ExtentStep(0, width);
    values, next := [], i;
    for j := 0 to n
      invariant next == i + Extent(j, width) <= 8 * buff.Length
      invariant values == ReadColumn(BitsOf(buff[..]), i, width, signed, j)
    {
      ExtentGrows(j + 1, n, width);
      ReadPush(BitsOf(buff[..]), i, width, signed, j);
      var v;
      if signed {
        v := GetBits(buff, next, width);
      } else {
        v := GetBitu(buff, next, width);
      }
      values := values + [v];
      next := next + width;
    }
  }
}
