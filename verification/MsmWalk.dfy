/**
 From masks and columns to readings: which satellite and signal each number
 belongs to.  RTKLIB's save_msm_obs walks the cells row by row; BNC's
 DecodeRTCM3MSM counts down through the three masks from their top bits; the
 Go header package builds a table.  All three agree.
 */
module MsmWalk {
  import opened Bits
  import opened MsmMasks
  import opened MsmIndex

  /** A cell that is present: its satellite and signal, and its entries in a satellite and in a cell column. */
  datatype Reading = Reading(sat: nat, sig: nat, rough: int, fine: int)

  /** The masks of a message, and one column of each kind. */
  datatype Block = Block(sats: bits, sigs: bits, cells: bits, satCol: seq<int>, cellCol: seq<int>)

  predicate WellSized(b: Block) {
    && |b.sats| == 64 && |b.sigs| == 32 && |b.cells| == Ones(b.sats) * Ones(b.sigs)
    && |b.satCol| == Ones(b.sats) && |b.cellCol| == Ones(b.cells)
  }

  /** The readings of the cells before row r, column k, in row-major order. */
  function ReadingsTo(b: Block, r: nat, k: nat): (rs: seq<Reading>)
    requires WellSized(b) && k <= Ones(b.sigs) && (r < Ones(b.sats) || (r == Ones(b.sats) && k == 0))
    ensures RowMajor(b, r, k) && |rs| == Count(b.cells, r * Ones(b.sigs) + k)
    decreases r, k
  {
    RowMajorFits(b, r, k);
    if k > 0 then
      ReadingsTo(b, r, k - 1) +
      (if b.cells[r * Ones(b.sigs) + k - 1]
       then [ReadingAt(b, r, k - 1)] else [])
    else if r > 0 then
      RowEnd(r, Ones(b.sigs));
      ReadingsTo(b, r - 1, Ones(b.sigs))
    else []
  }

  predicate RowMajor(b: Block, r: nat, k: nat) {
    0 <= r * Ones(b.sigs) + k <= |b.cells|
  }

  lemma RowMajorFits(b: Block, r: nat, k: nat)
    requires WellSized(b) && k <= Ones(b.sigs) && (r < Ones(b.sats) || (r == Ones(b.sats) && k == 0))
    ensures RowMajor(b, r, k)
  {
    MulNonNegative(r, Ones(b.sigs));
    if k > 0 {
      RowMajorBound(r, k - 1, Ones(b.sats), Ones(b.sigs));
    } else {
      MulNonNegative(Ones(b.sats) - r, Ones(b.sigs));
      assert Ones(b.sats) * Ones(b.sigs) == r * Ones(b.sigs) + (Ones(b.sats) - r) * Ones(b.sigs);
    }
  }

  lemma RowEnd(r: nat, n: nat)
    requires r > 0
    ensures r * n == (r - 1) * n + n
  {
  }

  function ReadingAt(b: Block, r: nat, k: nat): Reading
    requires WellSized(b) && k < Ones(b.sigs) && r < Ones(b.sats)
    requires 0 <= r * Ones(b.sigs) + k < |b.cells| && b.cells[r * Ones(b.sigs) + k]
  {
    var c := r * Ones(b.sigs) + k;
    CountMonotone(b.cells, c + 1, |b.cells|);
    Reading(Ids(b.sats)[r], Ids(b.sigs)[k], b.satCol[r], b.cellCol[Count(b.cells, c)])
  }

  function Readings(b: Block): seq<Reading>
    requires WellSized(b)
  {
    ReadingsTo(b, Ones(b.sats), 0)
  }

  // ------------------------------------------------------- RTKLIB's walk

  /** The double loop of save_msm_obs; j numbers the cells that are present. */
  method SaveMsmObs(b: Block, sats: seq<nat>, sigs: seq<nat>) returns (rs: seq<Reading>)
    requires WellSized(b) && sats == Ids(b.sats) && sigs == Ids(b.sigs)
    ensures rs == Readings(b)
  {
    hide Count, Ones, Ids;
    rs := [];
    var j := 0;
    for i := 0 to |sats|
      invariant rs == ReadingsTo(b, i, 0) && j == |rs|
    {
      for k := 0 to |sigs|
        invariant rs == ReadingsTo(b, i, k) && j == |rs|
      {
        RowMajorFits(b, i, k + 1);
        if !b.cells[k + i * |sigs|] {
          continue;
        }
        CountBelow(b.cells, k + i * |sigs|);
        rs := rs + [Reading(sats[i], sigs[k], b.satCol[i], b.cellCol[j])];
        j := j + 1;
      }
      RowEnd(i + 1, |sigs|);
      RowMajorFits(b, i + 1, 0);
    }
  }

  lemma CountBelow(m: bits, c: nat)
    requires c < |m| && m[c]
    ensures Count(m, c) < Ones(m)
  {
    CountMonotone(m, c + 1, |m|);
  }

  /**
   The decoder's reading of the signal's cell: it stands where the encoder's
   number for the cell says, and has the signal's satellite and signal id.
   */
  predicate ReadsSignal(b: Block, p: Signal) {
    && WellSized(b) && 1 <= p.sat <= 64 && 1 <= p.sig <= 32
    && var cell, row := CellOf(b.sats, b.sigs, p), Count(b.sats, p.sat - 1);
       && 0 <= cell < |b.cells| && b.cells[cell] && row < |b.satCol|
       && var n := Count(b.cells, cell);
          && n < |b.cellCol| && n < |Readings(b)|
          && Readings(b)[n] == Reading(p.sat, p.sig, b.satCol[row], b.cellCol[n])
  }

  /** Every signal that was encoded is read back as itself. */
  lemma ReadingOfSignal(b: Block, ps: seq<Signal>, q: nat)
    requires WellSized(b) && Proper(ps) && q < |ps|
    requires b.sats == SatMask(ps) && b.sigs == SigMask(ps) && b.cells == CellMask(ps)
    ensures ReadsSignal(b, ps[q])
  {
    hide Count, Ones, Ids, ReadingsTo, SatMask, SigMask, CellMask;
    var p := ps[q];
    var r, k := Count(b.sats, p.sat - 1), Count(b.sigs, p.sig - 1);
    CellIndex(ps, q);
    IdAtRank(b.sats, p.sat - 1);
    IdAtRank(b.sigs, p.sig - 1);
    assert CellSeen(b.sats, b.sigs, ps, CellOf(b.sats, b.sigs, p));
    CountBelow(b.cells, r * Ones(b.sigs) + k);
    ReadingStays(b, r, k, Ones(b.sats), 0);
  }

  /** A reading once made stays where it is. */
  lemma {:induction false} ReadingStays(b: Block, r: nat, k: nat, r': nat, k': nat)
    requires WellSized(b) && r < Ones(b.sats) && k < Ones(b.sigs) && k' <= Ones(b.sigs)
    requires r' < Ones(b.sats) || (r' == Ones(b.sats) && k' == 0)
    requires r < r' || (r == r' && k < k')
    requires 0 <= r * Ones(b.sigs) + k < |b.cells| && b.cells[r * Ones(b.sigs) + k]
    ensures var n := Count(b.cells, r * Ones(b.sigs) + k);
            n < |ReadingsTo(b, r', k')| && ReadingsTo(b, r', k')[n] == ReadingAt(b, r, k)
    decreases r', k'
  {
    hide Count, Ones, Ids;
    if k' > 0 {
      if !(r == r' && k == k' - 1) {
        ReadingStays(b, r, k, r', k' - 1);
      }
    } else {
      ReadingStays(b, r, k, r' - 1, Ones(b.sigs));
    }
  }

  // ------------------------------------------------------------ BNC's walk

  /** The first set bit at or after n, or the length of the mask. */
  function NextSet(m: bits, n: nat): (k: nat)
    requires n <= |m|
    ensures n <= k <= |m| && (k < |m| ==> m[k])
    decreases |m| - n
  {
    if n == |m| || m[n] then n else NextSet(m, n + 1)
  }

  lemma {:induction false} NextSetSkips(m: bits, n: nat, t: nat)
    requires n <= t <= |m| && forall x :: n <= x < t ==> !m[x]
    ensures NextSet(m, n) == NextSet(m, t)
    decreases t - n
  {
    if n < t {
      NextSetSkips(m, n + 1, t);
    }
  }

  /** Where the search goes on after the a-th id. */
  function After(m: bits, a: nat): nat
    requires a <= Ones(m)
  {
    if a == 0 then 0 else Ids(m)[a - 1]
  }

  /** The search from behind one id finds the next one, or runs off the end. */
  lemma NextSetIsNextId(m: bits, a: nat)
    requires a <= Ones(m)
    ensures After(m, a) <= |m|
    ensures NextSet(m, After(m, a)) == if a < Ones(m) then Ids(m)[a] - 1 else |m|
    ensures a < Ones(m) ==> 1 <= Ids(m)[a] <= |m|
  {
    hide Ids, Count, NextSet;
    if a > 0 {
      IdIsSetWhole(m, a - 1);
    }
    if a < Ones(m) {
      IdIsSetWhole(m, a);
      if a > 0 {
        IdsAscend(m, a - 1, a);
      }
    }
    var t := if a < Ones(m) then Ids(m)[a] - 1 else |m|;
    forall x | After(m, a) <= x < t
      ensures !m[x]
    {
      NoneBetween(m, a, x);
    }
    NextSetSkips(m, After(m, a), t);
    NextSetHere(m, t);
  }

  lemma NextSetHere(m: bits, t: nat)
    requires t <= |m| && (t < |m| ==> m[t])
    ensures NextSet(m, t) == t
  {
  }

  lemma NoneBetween(m: bits, a: nat, x: nat)
    requires a <= Ones(m) && After(m, a) <= x < |m| && (a < Ones(m) ==> x + 1 < Ids(m)[a])
    ensures !m[x]
  {
    hide Ids, Count, Ones;
    if m[x] {
      IdAtRank(m, x);
      var c := Count(m, x);
      if c < a && c != a - 1 {
        IdsAscend(m, c, a - 1);
      }
      if a < c {
        IdsAscend(m, a, c);
      }
    }
  }

  lemma IdIsSetWhole(m: bits, r: nat)
    requires r < Ones(m)
    ensures 1 <= Ids(m)[r] <= |m| && m[Ids(m)[r] - 1]
  {
    IdIsSet(m, |m|, r);
  }

  /** while (j >= 0 && !(sigmask & (1 << --j))); the shift by -1 when j has run out is undefined: any bit will do. */
  method ScanSignals(sigs: bits, start: int) returns (j: int)
    requires |sigs| == 32 && -1 <= start <= 32
    ensures j == if start < 0 then start else 31 - NextSet(sigs, 32 - start)
  {
    j := start;
    var found := false;
    while j >= 0 && !found
      invariant -1 <= j <= 32 && (start < 0 ==> j == start && !found)
      invariant start >= 0 && (found || j < 0) ==> j == 31 - NextSet(sigs, 32 - start)
      invariant start >= 0 && j >= 0 && !found ==> NextSet(sigs, 32 - j) == NextSet(sigs, 32 - start)
      decreases j, !found
    {
      j := j - 1;
      if j >= 0 {
        found := sigs[31 - j];
      } else {
        found := *;
      }
    }
  }

  /** while (!(satmask & (UINT64(1) << (--i)))); */
  method ScanSatellites(sats: bits, start: nat) returns (i: nat)
    requires |sats| == 64 && start <= 64 && NextSet(sats, 64 - start) < 64
    ensures i == 63 - NextSet(sats, 64 - start)
  {
    i := start - 1;
    while !sats[63 - i]
      invariant i < 64 && NextSet(sats, 63 - i) == NextSet(sats, 64 - start) < 64
      decreases i
    {
      i := i - 1;
    }
  }

  /** for (int j = numsat; j--;) GETBITS(rrint[j], ...) */
  method FillSatellites(column: seq<int>) returns (rrint: seq<int>)
    requires |column| <= 64
    ensures |rrint| == 64 && forall r :: 0 <= r < |column| ==> rrint[|column| - 1 - r] == column[r]
  {
    var a := new int[64];
    var j, next := |column|, 0;
    while j > 0
      invariant 0 <= j <= |column| && next == |column| - j
      invariant forall r :: 0 <= r < next ==> a[|column| - 1 - r] == column[r]
    {
      j := j - 1;
      a[j] := column[next];
      next := next + 1;
    }
    rrint := a[..];
  }

  /** for (int count = numcells; count--;) if (cellmask & (UINT64(1) << count)) GETBITS(psr[count], ...) */
  method FillCells(cells: bits, column: seq<int>) returns (psr: seq<int>)
    requires |cells| <= 64 && |column| == Ones(cells)
    ensures |psr| == 64
    ensures forall c :: 0 <= c < |cells| && cells[c] ==>
              Count(cells, c) < |column| && psr[|cells| - 1 - c] == column[Count(cells, c)]
  {
    var a := new int[64];
    var count, next := |cells|, 0;
    while count > 0
      invariant 0 <= count <= |cells| && next == Count(cells, |cells| - count)
      invariant forall c :: 0 <= c < |cells| - count && cells[c] ==>
                  Count(cells, c) < |column| && a[|cells| - 1 - c] == column[Count(cells, c)]
    {
      count := count - 1;
      var c := |cells| - 1 - count;
      CountMonotone(cells, c + 1, |cells|);
      if cells[c] {
        a[count] := column[next];
        next := next + 1;
      }
    }
    psr := a[..];
  }

  /** Where the counters of the walk stand when the k-th signal of row r has been dealt with. */
  predicate Cursor(b: Block, r: nat, k: nat, i: int, j: int, numsat: int)
    requires WellSized(b) && r < Ones(b.sats) && 1 <= k <= Ones(b.sigs)
  {
    i + Ids(b.sats)[r] == 64 && j + Ids(b.sigs)[k - 1] == 32 && numsat + 1 + r == Ones(b.sats)
  }

  /** One step of the three counters: to the next signal, or to the first signal of the next satellite. */
  method NextCell(b: Block, ghost r: nat, ghost k: nat, i0: nat, j0: int, numsat0: nat)
    returns (i: nat, j: nat, numsat: nat, ghost r': nat, ghost k': nat)
    requires WellSized(b) && 1 <= Ones(b.sigs) && k <= Ones(b.sigs) && (k == 0 ==> r == 0)
    requires r < Ones(b.sats) && (k == Ones(b.sigs) ==> r + 1 < Ones(b.sats))
    requires if k == 0 then i0 == 64 && j0 == -1 && numsat0 == Ones(b.sats) else Cursor(b, r, k, i0, j0, numsat0)
    ensures r' < Ones(b.sats) && 1 <= k' <= Ones(b.sigs) && Cursor(b, r', k', i, j, numsat)
    ensures i < 64 && j < 32 && numsat < Ones(b.sats)
    ensures if k < Ones(b.sigs) then r' == r && k' == k + 1 else r' == r + 1 && k' == 1
  {
    hide Ones, Ids, NextSet;
    NextSetIsNextId(b.sigs, k);
    NextSetIsNextId(b.sigs, 0);
    IdIsSetWhole(b.sats, r);
    if k > 0 {
      IdIsSetWhole(b.sigs, k - 1);
    }
    i, numsat := i0, numsat0;
    r', k' := r, k + 1;
    var s := ScanSignals(b.sigs, j0);
    if s < 0 {
      if k > 0 {
        r', k' := r + 1, 1;
      }
      NextSetIsNextId(b.sats, r');
      i := ScanSatellites(b.sats, i0);
      s := ScanSignals(b.sigs, 32);
      numsat := numsat - 1;
    }
    j := s;
  }

  // ---------------------------------------------------------- bit counting

  /** a & b */
  function And(a: bits, b: bits): (r: bits)
    requires |a| == |b|
    ensures |r| == |a|
  {
    if a == [] then [] else And(a[..|a| - 1], b[..|b| - 1]) + [a[|a| - 1] && b[|b| - 1]]
  }

  lemma AndPush(a: bits, b: bits, x: bool, y: bool)
    requires |a| == |b|
    ensures And(a + [x], b + [y]) == And(a, b) + [x && y]
  {
  }

  lemma {:induction false} AndSelf(a: bits)
    ensures And(a, a) == a
  {
    if a != [] {
      AndSelf(a[..|a| - 1]);
      assert a == a[..|a| - 1] + [a[|a| - 1]];
    }
  }

  lemma OnesPush(m: bits, x: bool)
    ensures Ones(m + [x]) == Ones(m) + if x then 1 else 0
  {
    CountAgrees(m + [x], m, |m|);
  }

  lemma {:induction false} CountAgrees(a: bits, b: bits, n: nat)
    requires n <= |a| && n <= |b| && forall k :: 0 <= k < n ==> a[k] == b[k]
    ensures Count(a, n) == Count(b, n)
  {
    if n > 0 {
      CountAgrees(a, b, n - 1);
    }
  }

  lemma {:induction false} NoOnes(m: bits)
    ensures Value(m) == 0 <==> Ones(m) == 0
    decreases |m|
  {
    if m != [] {
      var init, last := m[..|m| - 1], m[|m| - 1];
      assert m == init + [last];
      NoOnes(init);
      ValuePush(init, last);
      OnesPush(init, last);
    }
  }

  /** ui - 1 */
  function MinusOne(m: bits): (r: bits)
    ensures |r| == |m|
  {
    ToBits(Value(m) - 1, |m|)
  }

  lemma MinusOneOdd(m: bits)
    ensures MinusOne(m + [true]) == m + [false]
  {
    ValuePush(m, true);
    ToBitsValue(m);
  }

  lemma MinusOneEven(m: bits)
    ensures MinusOne(m + [false]) == MinusOne(m) + [true]
  {
    ValuePush(m, false);
  }

  /** ui & (ui - 1) has one bit fewer. */
  lemma {:induction false} RemoveRightmost(m: bits)
    requires Ones(m) != 0
    ensures Ones(And(m, MinusOne(m))) == Ones(m) - 1
    decreases |m|
  {
    hide Ones, MinusOne, And;
    NoOnesEmpty(m);
    var init, last := m[..|m| - 1], m[|m| - 1];
    assert m == init + [last];
    OnesPush(init, last);
    if last {
      MinusOneOdd(init);
      AndPush(init, init, true, false);
      AndSelf(init);
      OnesPush(init, false);
    } else {
      MinusOneEven(init);
      AndPush(init, MinusOne(init), false, true);
      RemoveRightmost(init);
      OnesPush(And(init, MinusOne(init)), false);
    }
  }

  lemma NoOnesEmpty(m: bits)
    ensures m == [] ==> Ones(m) == 0
  {
  }

  /** for (ui = mask; ui; ui &= (ui - 1)) ++n; */
  method CountBits(mask: bits) returns (n: nat)
    ensures n == Ones(mask)
  {
    hide Ones;
    n := 0;
    var ui := mask;
    NoOnes(ui);
    while Value(ui) != 0
      invariant |ui| == |mask| && n + Ones(ui) == Ones(mask) && (Value(ui) == 0 <==> Ones(ui) == 0)
      decreases Ones(ui)
    {
      RemoveRightmost(ui);
      ui := And(ui, MinusOne(ui));
      NoOnes(ui);
      n := n + 1;
    }
  }

  // ------------------------------------------------------------- the walk

  lemma NotAtEnd(b: Block, r: nat, k: nat)
    requires WellSized(b) && r < Ones(b.sats) && k <= Ones(b.sigs) && r * Ones(b.sigs) + k < |b.cells|
    ensures 1 <= Ones(b.sigs) && (k == Ones(b.sigs) ==> r + 1 < Ones(b.sats))
  {
  }

  lemma AtEnd(b: Block, r: nat, k: nat)
    requires WellSized(b) && r < Ones(b.sats) && 1 <= k <= Ones(b.sigs) && r * Ones(b.sigs) + k == |b.cells|
    ensures ReadingsTo(b, r, k) == Readings(b)
  {
    hide Ones, Count;
    RowEnd(Ones(b.sats), Ones(b.sigs));
    RowMajorUnique(r, k - 1, Ones(b.sats) - 1, Ones(b.sigs) - 1, Ones(b.sigs));
  }

  /** The cell of row r that the k-th signal belongs to. */
  lemma CellStep(b: Block, r: nat, k: nat)
    requires WellSized(b) && r < Ones(b.sats) && 1 <= k <= Ones(b.sigs)
    ensures 0 <= r * Ones(b.sigs) + k - 1 < |b.cells|
    ensures k == 1 && r > 0 ==>
              && ReadingsTo(b, r, 0) == ReadingsTo(b, r - 1, Ones(b.sigs))
              && r * Ones(b.sigs) == (r - 1) * Ones(b.sigs) + Ones(b.sigs)
    ensures ReadingsTo(b, r, k) == ReadingsTo(b, r, k - 1) +
            if b.cells[r * Ones(b.sigs) + k - 1] then [ReadingAt(b, r, k - 1)] else []
  {
    hide Ones, Count;
    RowMajorBound(r, k - 1, Ones(b.sats), Ones(b.sigs));
    if r > 0 {
      RowEnd(r, Ones(b.sigs));
    }
  }

  /** What the counters say about a cell that is present. */
  lemma ReadingHere(b: Block, r: nat, k: nat, i: nat, j: nat, numsat: nat)
    requires WellSized(b) && r < Ones(b.sats) && 1 <= k <= Ones(b.sigs) && Cursor(b, r, k, i, j, numsat)
    requires 0 <= r * Ones(b.sigs) + k - 1 < |b.cells| && b.cells[r * Ones(b.sigs) + k - 1]
    ensures numsat == |b.satCol| - 1 - r && i <= 64 && j <= 32
    ensures var c := r * Ones(b.sigs) + k - 1;
            Count(b.cells, c) < |b.cellCol|
            && ReadingAt(b, r, k - 1) == Reading(64 - i, 32 - j, b.satCol[r], b.cellCol[Count(b.cells, c)])
  {
    hide Ones, Ids, Count;
    CountBelow(b.cells, r * Ones(b.sigs) + k - 1);
  }

  lemma ReadingsFromStart(b: Block)
    requires WellSized(b) && |b.cells| >= 1
    ensures Ones(b.sats) > 0 && ReadingsTo(b, 0, 0) == []
  {
  }

  method WalkCells(b: Block) returns (rs: seq<Reading>)
    requires WellSized(b) && 1 <= |b.cells| <= 64
    ensures rs == Readings(b)
  {
    hide Ones, Ids, Count, ReadingAt, Cursor, ReadingsTo;
    ReadingsFromStart(b);
    var numsat := CountBits(b.sats);
    var numsig := CountBits(b.sigs);
    var rrint := FillSatellites(b.satCol);
    var numcells := numsat * numsig;
    var psr := FillCells(b.cells, b.cellCol);
    var i, j: int, count := 64, -1, numcells;
    rs := [];
    ghost var r: nat, k: nat := 0, 0;
    while count > 0
      invariant r < Ones(b.sats) && 0 <= k <= numsig && (k == 0 ==> r == 0)
      invariant count == numcells - (r * numsig + k)
      invariant rs == ReadingsTo(b, r, k)
      invariant 0 <= i <= 64 && 0 <= numsat
      invariant if k == 0 then i == 64 && j == -1 && numsat == Ones(b.sats) else Cursor(b, r, k, i, j, numsat)
    {
      NotAtEnd(b, r, k);
      count := count - 1;
      i, j, numsat, r, k := NextCell(b, r, k, i, j, numsat);
      CellStep(b, r, k);
      assert rs == ReadingsTo(b, r, k - 1);
      assert numcells - 1 - count == r * numsig + k - 1;
      if b.cells[numcells - 1 - count] {
        ReadingHere(b, r, k, i, j, numsat);
        rs := rs + [Reading(64 - i, 32 - j, rrint[numsat], psr[count])];
      }
    }
    AtEnd(b, r, k);
  }
}
