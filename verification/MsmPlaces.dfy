/**
 Where the numbers of an MSM stand: the satellite columns and cell columns of
 MSM4 to MSM7, with their places and widths in bits.  The encoder, RTKLIB's
 decoder, BNC's reader and the Go package are each held to what is written out
 here.
 */
module MsmPlaces {
  import opened Bits
  import opened BitFields

  // --------------------------------------------------------- as they are read

  /** Number j of the column is the unsigned number in the width bits from pos + width * j on. */
  predicate NumbersAt(s: bits, pos: nat, width: nat, col: seq<int>) {
    forall j :: 0 <= j < |col| ==>
      && 0 <= pos + width * j && pos + width * j + width <= |s|
      && col[j] == Value(s[pos + width * j..pos + width * j + width])
  }

  /** The same for two's complement. */
  predicate SignedNumbersAt(s: bits, pos: nat, width: nat, col: seq<int>) {
    forall j :: 0 <= j < |col| ==>
      && 0 <= pos + width * j && pos + width * j + width <= |s|
      && col[j] == Signed(s[pos + width * j..pos + width * j + width])
  }

  predicate Heights(cols: seq<seq<int>>, lo: nat, hi: nat, n: nat) {
    hi <= |cols| && forall k :: lo <= k < hi ==> |cols[k]| == n
  }

  /** Rough ranges of n satellites, in the columns from 0 on: whole milliseconds, and the rest. */
  predicate RangesAt(s: bits, i: nat, n: nat, cols: seq<seq<int>>) {
    && Heights(cols, 0, 2, n)
    && NumbersAt(s, i, 8, cols[0])
    && NumbersAt(s, i + 8 * n, 10, cols[1])
  }

  /** The same with extended information between the two, and rough phase-range rates behind them. */
  predicate ExtendedRangesAt(s: bits, i: nat, n: nat, cols: seq<seq<int>>) {
    && Heights(cols, 0, 4, n)
    && NumbersAt(s, i, 8, cols[0])
    && NumbersAt(s, i + 8 * n, 4, cols[1])
    && NumbersAt(s, i + 12 * n, 10, cols[2])
    && SignedNumbersAt(s, i + 22 * n, 14, cols[3])
  }

  /**
   Fine pseudoranges, fine phase-ranges, lock-time indicators, half-cycle
   indicators and signal strengths of c cells, in the columns from k on.
   */
  predicate SignalsAt(s: bits, i: nat, c: nat, cols: seq<seq<int>>, k: nat) {
    && Heights(cols, k, k + 5, c)
    && SignedNumbersAt(s, i, 15, cols[k])
    && SignedNumbersAt(s, i + 15 * c, 22, cols[k + 1])
    && NumbersAt(s, i + 37 * c, 4, cols[k + 2])
    && NumbersAt(s, i + 41 * c, 1, cols[k + 3])
    && NumbersAt(s, i + 42 * c, 6, cols[k + 4])
  }

  /** The same with extended range and resolution. */
  predicate FineSignalsAt(s: bits, i: nat, c: nat, cols: seq<seq<int>>, k: nat) {
    && Heights(cols, k, k + 5, c)
    && SignedNumbersAt(s, i, 20, cols[k])
    && SignedNumbersAt(s, i + 20 * c, 24, cols[k + 1])
    && NumbersAt(s, i + 44 * c, 10, cols[k + 2])
    && NumbersAt(s, i + 54 * c, 1, cols[k + 3])
    && NumbersAt(s, i + 55 * c, 10, cols[k + 4])
  }

  /** Fine phase-range rates of c cells, in column k. */
  predicate RatesAt(s: bits, i: nat, c: nat, cols: seq<seq<int>>, k: nat) {
    Heights(cols, k, k + 1, c) && SignedNumbersAt(s, i, 15, cols[k])
  }

  /** The columns of MSM kind with n satellites and c cells, the first of them at bit i. */
  predicate ColumnsAt(kind: nat, s: bits, i: nat, n: nat, c: nat, cols: seq<seq<int>>) {
    match kind
    case 4 => |cols| == 7 && RangesAt(s, i, n, cols) && SignalsAt(s, i + 18 * n, c, cols, 2)
    case 5 =>
      && |cols| == 10 && ExtendedRangesAt(s, i, n, cols) && SignalsAt(s, i + 36 * n, c, cols, 4)
      && RatesAt(s, i + 36 * n + 48 * c, c, cols, 9)
    case 6 => |cols| == 7 && RangesAt(s, i, n, cols) && FineSignalsAt(s, i + 18 * n, c, cols, 2)
    case 7 =>
      && |cols| == 10 && ExtendedRangesAt(s, i, n, cols) && FineSignalsAt(s, i + 36 * n, c, cols, 4)
      && RatesAt(s, i + 36 * n + 65 * c, c, cols, 9)
    case _ => false
  }

  /** How many bits they take. */
  function ColumnsLength(kind: nat, n: nat, c: nat): nat {
    match kind
    case 4 => 18 * n + 48 * c
    case 5 => 36 * n + 63 * c
    case 6 => 18 * n + 65 * c
    case _ => 36 * n + 80 * c
  }

  // ------------------------------------------------------ as they are written

  /** Number j of the column has been written by setbitu into the width bits from pos + width * j on. */
  predicate WrittenAt(s: bits, pos: nat, width: nat, col: seq<int>) {
    forall j :: 0 <= j < |col| ==>
      && 0 <= pos + width * j && pos + width * j + width <= |s|
      && s[pos + width * j..pos + width * j + width] == ToBits(col[j], width)
  }

  /** The same for setbits. */
  predicate SignedWrittenAt(s: bits, pos: nat, width: nat, col: seq<int>)
    requires width >= 1
  {
    forall j :: 0 <= j < |col| ==>
      && 0 <= pos + width * j && pos + width * j + width <= |s|
      && s[pos + width * j..pos + width * j + width] == SetbitsImage(col[j], width)
  }

  /** The columns of an MSM4, the first of them at bit i. */
  predicate Msm4WrittenAt(s: bits, i: nat, n: nat, c: nat, cols: seq<seq<int>>) {
    && |cols| == 7 && Heights(cols, 0, 2, n) && Heights(cols, 2, 7, c)
    && WrittenAt(s, i, 8, cols[0])
    && WrittenAt(s, i + 8 * n, 10, cols[1])
    && SignedWrittenAt(s, i + 18 * n, 15, cols[2])
    && SignedWrittenAt(s, i + 18 * n + 15 * c, 22, cols[3])
    && WrittenAt(s, i + 18 * n + 37 * c, 4, cols[4])
    && WrittenAt(s, i + 18 * n + 41 * c, 1, cols[5])
    && WrittenAt(s, i + 18 * n + 42 * c, 6, cols[6])
  }

  /** The columns of an MSM7; the last of them goes through setbitu although its numbers have a sign. */
  predicate Msm7WrittenAt(s: bits, i: nat, n: nat, c: nat, cols: seq<seq<int>>) {
    && |cols| == 10 && Heights(cols, 0, 4, n) && Heights(cols, 4, 10, c)
    && WrittenAt(s, i, 8, cols[0])
    && WrittenAt(s, i + 8 * n, 4, cols[1])
    && WrittenAt(s, i + 12 * n, 10, cols[2])
    && SignedWrittenAt(s, i + 22 * n, 14, cols[3])
    && SignedWrittenAt(s, i + 36 * n, 20, cols[4])
    && SignedWrittenAt(s, i + 36 * n + 20 * c, 24, cols[5])
    && WrittenAt(s, i + 36 * n + 44 * c, 10, cols[6])
    && WrittenAt(s, i + 36 * n + 54 * c, 1, cols[7])
    && WrittenAt(s, i + 36 * n + 55 * c, 10, cols[8])
    && WrittenAt(s, i + 36 * n + 65 * c, 15, cols[9])
  }
}
