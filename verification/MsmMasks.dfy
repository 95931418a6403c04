/**
 Masks and ranks: how MSM headers name satellites, signals and cells.  Bit k of
 a mask stands for the id k + 1, and the set bits are numbered in ascending
 order.
 */
module MsmMasks {
  import opened Bits

  /** How many of the first n bits are set. */
  function Count(m: bits, n: nat): (c: nat)
    requires n <= |m|
    ensures c <= n
  {
    if n == 0 then 0 else Count(m, n - 1) + (if m[n - 1] then 1 else 0)
  }

  function Ones(m: bits): (c: nat)
    ensures c <= |m|
  {
    Count(m, |m|)
  }

  /** The ids among the first n, in ascending order. */
  function IdsUpTo(m: bits, n: nat): (r: seq<nat>)
    requires n <= |m|
    ensures |r| == Count(m, n)
  {
    if n == 0 then [] else if m[n - 1] then IdsUpTo(m, n - 1) + [n] else IdsUpTo(m, n - 1)
  }

  function Ids(m: bits): (r: seq<nat>)
    ensures |r| == Ones(m)
  {
    IdsUpTo(m, |m|)
  }

  lemma {:induction false} CountMonotone(m: bits, a: nat, b: nat)
    requires a <= b <= |m|
    ensures Count(m, a) <= Count(m, b) <= Count(m, a) + (b - a)
    ensures IdsUpTo(m, a) == IdsUpTo(m, b)[..Count(m, a)]
  {
    if a < b {
      CountMonotone(m, a, b - 1);
      assert IdsUpTo(m, b)[..Count(m, b - 1)] == IdsUpTo(m, b - 1);
    }
  }

  /** A set bit's id stands in the list at the bit's rank. */
  lemma IdAtRank(m: bits, k: nat)
    requires k < |m| && m[k]
    ensures Count(m, k) < Ones(m) && Ids(m)[Count(m, k)] == k + 1
  {
    CountMonotone(m, k + 1, |m|);
    assert IdsUpTo(m, k + 1)[Count(m, k)] == k + 1;
  }

  /** Every id in the list comes from a set bit of that rank. */
  lemma {:induction false} IdIsSet(m: bits, n: nat, r: nat)
    requires n <= |m| && r < Count(m, n)
    ensures var id := IdsUpTo(m, n)[r]; 1 <= id <= n && m[id - 1] && Count(m, id - 1) == r
  {
    if m[n - 1] && r == Count(m, n - 1) {
      assert IdsUpTo(m, n)[r] == n;
    } else {
      IdIsSet(m, n - 1, r);
      assert IdsUpTo(m, n)[r] == IdsUpTo(m, n - 1)[r];
    }
  }

  /** The list is strictly ascending. */
  lemma IdsAscend(m: bits, a: nat, b: nat)
    requires a < b < Ones(m)
    ensures Ids(m)[a] < Ids(m)[b]
  {
    IdIsSet(m, |m|, a);
    IdIsSet(m, |m|, b);
    var x, y := Ids(m)[a], Ids(m)[b];
    if y <= x {
      CountMonotone(m, y - 1, x - 1);
    }
  }

  /** The mask and the list say the same. */
  lemma IdsAreTheSetBits(m: bits, k: nat)
    requires k < |m|
    ensures m[k] <==> k + 1 in Ids(m)
  {
    if m[k] {
      IdAtRank(m, k);
    }
    if k + 1 in Ids(m) {
      var r :| 0 <= r < |Ids(m)| && Ids(m)[r] == k + 1;
      IdIsSet(m, |m|, r);
    }
  }

  // ------------------------------------------------------ cells, row by row

  lemma RowMajorBound(r: nat, c: nat, rows: nat, columns: nat)
    requires r < rows && c < columns
    ensures 0 <= r * columns + c < rows * columns
  {
    MulNonNegative(r, columns);
    MulNonNegative(rows - 1 - r, columns);
    assert rows * columns == r * columns + columns + (rows - 1 - r) * columns;
  }

  lemma RowMajorUnique(r: nat, c: nat, r': nat, c': nat, columns: nat)
    requires c < columns && c' < columns && r * columns + c == r' * columns + c'
    ensures r == r' && c == c'
  {
    DivModUnique(r * columns + c, columns, r, c);
    DivModUnique(r * columns + c, columns, r', c');
  }
}
