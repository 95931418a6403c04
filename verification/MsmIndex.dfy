/**
 gen_msm_index of c/rtklib/rtcm3e.c: from the observations of one epoch to the
 satellite, signal and cell indices of an MSM.

 An observation holds what to_satid and to_sigid make of it: a satellite id of
 the constellation, or 0, and for each of its slots a signal id, or 0.
 */
module MsmIndex {
  import opened Bits
  import opened MsmMasks

  datatype Obs = Obs(sat: nat, sigs: seq<nat>)

  datatype Signal = Signal(sat: nat, sig: nat)

  predicate InRange(obs: seq<Obs>) {
    forall i :: 0 <= i < |obs| ==> obs[i].sat <= 64 && forall j :: 0 <= j < |obs[i].sigs| ==> obs[i].sigs[j] <= 32
  }

  /** The signals the loops visit, in order. */
  function RowSignals(o: Obs, n: nat): seq<Signal>
    requires n <= |o.sigs|
  {
    if n == 0 then []
    else if o.sat == 0 || o.sigs[n - 1] == 0 then RowSignals(o, n - 1)
    else RowSignals(o, n - 1) + [Signal(o.sat, o.sigs[n - 1])]
  }

  function SignalsOf(obs: seq<Obs>, n: nat): seq<Signal>
    requires n <= |obs|
  {
    if n == 0 then [] else SignalsOf(obs, n - 1) + RowSignals(obs[n - 1], |obs[n - 1].sigs|)
  }

  predicate Proper(ps: seq<Signal>) {
    forall q :: 0 <= q < |ps| ==> 1 <= ps[q].sat <= 64 && 1 <= ps[q].sig <= 32
  }

  predicate SatSeen(ps: seq<Signal>, sat: nat) {
    exists q :: 0 <= q < |ps| && ps[q].sat == sat
  }

  predicate SigSeen(ps: seq<Signal>, sig: nat) {
    exists q :: 0 <= q < |ps| && ps[q].sig == sig
  }

  function SatMask(ps: seq<Signal>): (m: bits)
    ensures |m| == 64
    ensures forall k :: 0 <= k < 64 ==> m[k] == SatSeen(ps, k + 1)
  {
    seq(64, k requires 0 <= k < 64 => SatSeen(ps, k + 1))
  }

  function SigMask(ps: seq<Signal>): (m: bits)
    ensures |m| == 32
    ensures forall k :: 0 <= k < 32 ==> m[k] == SigSeen(ps, k + 1)
  {
    seq(32, k requires 0 <= k < 32 => SigSeen(ps, k + 1))
  }

  /** Where the signal's cell lies in the row-major cell mask. */
  function CellOf(sats: bits, sigs: bits, p: Signal): int
    requires 1 <= p.sat <= |sats| && 1 <= p.sig <= |sigs|
  {
    Count(sats, p.sat - 1) * Ones(sigs) + Count(sigs, p.sig - 1)
  }

  predicate CellSeen(sats: bits, sigs: bits, ps: seq<Signal>, c: int)
    requires |sats| == 64 && |sigs| == 32 && Proper(ps)
  {
    exists q :: 0 <= q < |ps| && CellOf(sats, sigs, ps[q]) == c
  }

  function CellCount(sats: bits, sigs: bits): nat {
    MulNonNegative(Ones(sats), Ones(sigs));
    Ones(sats) * Ones(sigs)
  }

  function CellMask(ps: seq<Signal>): (m: bits)
    requires Proper(ps)
    ensures |m| == CellCount(SatMask(ps), SigMask(ps))
    ensures forall c :: 0 <= c < |m| ==> m[c] == CellSeen(SatMask(ps), SigMask(ps), ps, c)
  {
    var n := CellCount(SatMask(ps), SigMask(ps));
    seq(n, c requires 0 <= c < n => CellSeen(SatMask(ps), SigMask(ps), ps, c))
  }

  /**
   The cell mask in the terms of the lists: row r and column c is set exactly
   when the r-th satellite was observed on the c-th signal.
   */
  lemma CellMaskIsRowMajor(ps: seq<Signal>, r: nat, c: nat)
    requires Proper(ps) && r < Ones(SatMask(ps)) && c < Ones(SigMask(ps))
    ensures 0 <= r * Ones(SigMask(ps)) + c < |CellMask(ps)|
    ensures CellMask(ps)[r * Ones(SigMask(ps)) + c] <==> Signal(Ids(SatMask(ps))[r], Ids(SigMask(ps))[c]) in ps
  {
    hide Count, Ones, Ids;
    var sats, sigs := SatMask(ps), SigMask(ps);
    RowMajorBound(r, c, Ones(sats), Ones(sigs));
    IdsWhole(sats);
    IdsWhole(sigs);
    IdIsSet(sats, 64, r);
    IdIsSet(sigs, 32, c);
    var p := Signal(Ids(sats)[r], Ids(sigs)[c]);
    if p in ps {
      var q :| 0 <= q < |ps| && ps[q] == p;
      assert CellOf(sats, sigs, ps[q]) == r * Ones(sigs) + c;
    }
    if CellSeen(sats, sigs, ps, r * Ones(sigs) + c) {
      var q :| 0 <= q < |ps| && CellOf(sats, sigs, ps[q]) == r * Ones(sigs) + c;
      SignalAtCell(ps, q, r, c);
    }
  }

  lemma IdsWhole(m: bits)
    ensures Ids(m) == IdsUpTo(m, |m|) && Ones(m) == Count(m, |m|)
  {
  }

  lemma SignalAtCell(ps: seq<Signal>, q: nat, r: nat, c: nat)
    requires Proper(ps) && q < |ps| && r < Ones(SatMask(ps)) && c < Ones(SigMask(ps))
    requires CellOf(SatMask(ps), SigMask(ps), ps[q]) == r * Ones(SigMask(ps)) + c
    ensures ps[q] == Signal(Ids(SatMask(ps))[r], Ids(SigMask(ps))[c])
  {
    hide Count, Ones, Ids;
    var sats, sigs, p := SatMask(ps), SigMask(ps), ps[q];
    assert SatSeen(ps, p.sat - 1 + 1) && SigSeen(ps, p.sig - 1 + 1);
    IdAtRank(sats, p.sat - 1);
    IdAtRank(sigs, p.sig - 1);
    RowMajorUnique(Count(sats, p.sat - 1), Count(sigs, p.sig - 1), r, c, Ones(sigs));
  }

  /** A signal that some observation holds, of a satellite and of a kind that have ids. */
  predicate Observed(obs: seq<Obs>, p: Signal) {
    p.sat != 0 && p.sig != 0 && exists i :: 0 <= i < |obs| && obs[i].sat == p.sat && p.sig in obs[i].sigs
  }

  lemma {:induction false} RowHolds(o: Obs, n: nat, p: Signal)
    requires n <= |o.sigs|
    ensures p in RowSignals(o, n) <==> o.sat == p.sat && p.sat != 0 && p.sig != 0 && p.sig in o.sigs[..n]
  {
    if n > 0 {
      RowHolds(o, n - 1, p);
      assert o.sigs[..n] == o.sigs[..n - 1] + [o.sigs[n - 1]];
    }
  }

  lemma {:induction false} FirstObserved(obs: seq<Obs>, n: nat, p: Signal)
    requires n <= |obs|
    ensures p in SignalsOf(obs, n) <==> Observed(obs[..n], p)
  {
    if n > 0 {
      FirstObserved(obs, n - 1, p);
      var o := obs[n - 1];
      RowHolds(o, |o.sigs|, p);
      assert o.sigs[..|o.sigs|] == o.sigs && obs[..n] == obs[..n - 1] + [o];
      if Observed(obs[..n - 1], p) {
        var i :| 0 <= i < n - 1 && obs[..n - 1][i].sat == p.sat && p.sig in obs[..n - 1][i].sigs;
        assert obs[..n][i] == obs[..n - 1][i];
      }
      assert obs[..n][n - 1] == o;
    }
  }

  /** The loops visit exactly the signals observed. */
  lemma SignalsAreObserved(obs: seq<Obs>, p: Signal)
    ensures p in SignalsOf(obs, |obs|) <==> Observed(obs, p)
  {
    FirstObserved(obs, |obs|, p);
    assert obs[..|obs|] == obs;
  }

  // -------------------------------------------------------- gen_msm_index

  /** An index array's entry: the set bit's number, or 0; past the limit the mark stays 1. */
  function Numbered(m: bits, k: nat, limit: nat): nat
    requires k < |m|
  {
    if !m[k] then 0 else if Count(m, k) < limit then Count(m, k) + 1 else 1
  }

  /** The number of a set bit is its place in the list of ids; only past the limit it is not. */
  lemma NumberIsPlace(m: bits, k: nat, limit: nat)
    requires k < |m|
    ensures Numbered(m, k, limit) == 0 <==> !m[k]
    ensures m[k] && k + 1 in Ids(m)[..if limit < Ones(m) then limit else Ones(m)] ==>
              1 <= Numbered(m, k, limit) <= Ones(m) && Ids(m)[Numbered(m, k, limit) - 1] == k + 1
  {
    if m[k] {
      hide Ids, Ones, Count;
      IdAtRank(m, k);
      IdsWhole(m);
      var n := if limit < Ones(m) then limit else Ones(m);
      if k + 1 in Ids(m)[..n] {
        var r :| 0 <= r < n && Ids(m)[..n][r] == k + 1;
        IdIsSet(m, |m|, r);
      }
    }
  }

  function Mark(b: bool): nat {
    if b then 1 else 0
  }

  ghost predicate Marks(a: array<nat>, m: bits)
    reads a
  {
    |m| <= a.Length && forall k :: 0 <= k < |m| ==> a[k] == Mark(m[k])
  }

  ghost predicate Numbers(a: array<nat>, m: bits, limit: nat)
    reads a
  {
    |m| <= a.Length && forall k :: 0 <= k < |m| ==> a[k] == Numbered(m, k, limit)
  }

  method NumberMarks(a: array<nat>, limit: nat, n: nat, ghost m: bits) returns (count: nat)
    requires n == |m| && Marks(a, m)
    modifies a
    ensures count == if Ones(m) < limit then Ones(m) else limit
    ensures Numbers(a, m, limit)
  {
    count := 0;
    for i := 0 to n
      invariant count == if Count(m, i) < limit then Count(m, i) else limit
      invariant forall k :: 0 <= k < i ==> a[k] == Numbered(m, k, limit)
      invariant forall k :: i <= k < n ==> a[k] == Mark(m[k])
    {
      if a[i] != 0 && count < limit {
        count := count + 1;
        a[i] := count;
      }
    }
  }

  lemma {:induction false} RowIsProper(o: Obs, n: nat)
    requires n <= |o.sigs| && o.sat <= 64 && forall j :: 0 <= j < |o.sigs| ==> o.sigs[j] <= 32
    ensures Proper(RowSignals(o, n))
  {
    if n > 0 {
      RowIsProper(o, n - 1);
    }
  }

  lemma {:induction false} SignalsAreProper(obs: seq<Obs>, n: nat)
    requires n <= |obs| && InRange(obs)
    ensures Proper(SignalsOf(obs, n))
  {
    if n > 0 {
      SignalsAreProper(obs, n - 1);
      RowIsProper(obs[n - 1], |obs[n - 1].sigs|);
    }
  }

  method MarkSeen(obs: seq<Obs>, satInd: array<nat>, sigInd: array<nat>)
    requires InRange(obs) && satInd != sigInd && satInd.Length == 64 && sigInd.Length == 32
    requires (forall k :: 0 <= k < 64 ==> satInd[k] == 0) && forall k :: 0 <= k < 32 ==> sigInd[k] == 0
    modifies satInd, sigInd
    ensures Marks(satInd, SatMask(SignalsOf(obs, |obs|))) && Marks(sigInd, SigMask(SignalsOf(obs, |obs|)))
  {
    ghost var ps := [];
    for i := 0 to |obs|
      invariant ps == SignalsOf(obs, i)
      invariant forall k :: 0 <= k < 64 ==> satInd[k] == Mark(SatSeen(ps, k + 1))
      invariant forall k :: 0 <= k < 32 ==> sigInd[k] == Mark(SigSeen(ps, k + 1))
    {
      var sat := obs[i].sat;
      if sat == 0 {
        RowOfNone(obs[i], |obs[i].sigs|);
        continue;
      }
      for j := 0 to |obs[i].sigs|
        invariant ps == SignalsOf(obs, i) + RowSignals(obs[i], j)
        invariant forall k :: 0 <= k < 64 ==> satInd[k] == Mark(SatSeen(ps, k + 1))
        invariant forall k :: 0 <= k < 32 ==> sigInd[k] == Mark(SigSeen(ps, k + 1))
      {
        var sig := obs[i].sigs[j];
        if sig == 0 {
          continue;
        }
        SeenMore(ps, Signal(sat, sig));
        satInd[sat - 1], sigInd[sig - 1] := 1, 1;
        ps := ps + [Signal(sat, sig)];
      }
    }
  }

  lemma {:induction false} RowOfNone(o: Obs, n: nat)
    requires n <= |o.sigs| && o.sat == 0
    ensures RowSignals(o, n) == []
  {
    if n > 0 {
      RowOfNone(o, n - 1);
    }
  }

  lemma SeenMore(ps: seq<Signal>, p: Signal)
    ensures forall k :: SatSeen(ps + [p], k) <==> SatSeen(ps, k) || p.sat == k
    ensures forall k :: SigSeen(ps + [p], k) <==> SigSeen(ps, k) || p.sig == k
  {
    var ps' := ps + [p];
    assert ps'[|ps|] == p;
    forall k: nat
      ensures SatSeen(ps, k) ==> SatSeen(ps', k)
      ensures SigSeen(ps, k) ==> SigSeen(ps', k)
    {
      if SatSeen(ps, k) {
        var q :| 0 <= q < |ps| && ps[q].sat == k;
        assert ps'[q].sat == k;
      }
      if SigSeen(ps, k) {
        var q :| 0 <= q < |ps| && ps[q].sig == k;
        assert ps'[q].sig == k;
      }
    }
  }

  lemma {:induction false} RowPrefix(o: Obs, j: nat, n: nat)
    requires j <= n <= |o.sigs|
    ensures RowSignals(o, j) <= RowSignals(o, n)
  {
    if j < n {
      RowPrefix(o, j, n - 1);
    }
  }

  /** What has been visited so far is the beginning of what will be. */
  lemma {:induction false} VisitedPrefix(obs: seq<Obs>, i: nat, j: nat, n: nat)
    requires i < n <= |obs| && j <= |obs[i].sigs|
    ensures SignalsOf(obs, i) + RowSignals(obs[i], j) <= SignalsOf(obs, n)
  {
    if i == n - 1 {
      RowPrefix(obs[i], j, |obs[i].sigs|);
    } else {
      VisitedPrefix(obs, i, j, n - 1);
    }
  }

  lemma CellCountBound(sats: bits, sigs: bits)
    requires |sats| == 64 && |sigs| == 32
    ensures CellCount(sats, sigs) <= 64 * 32
  {
    MulNonNegative(64 - Ones(sats), Ones(sigs));
    assert 64 * Ones(sigs) == Ones(sats) * Ones(sigs) + (64 - Ones(sats)) * Ones(sigs);
  }

  lemma CellIndex(ps: seq<Signal>, q: nat)
    requires Proper(ps) && q < |ps|
    ensures var sats, sigs, p := SatMask(ps), SigMask(ps), ps[q];
            && sats[p.sat - 1] && sigs[p.sig - 1]
            && 0 <= CellOf(sats, sigs, p) < CellCount(sats, sigs)
            && Count(sats, p.sat - 1) < 64 && Count(sigs, p.sig - 1) < 32
  {
    var sats, sigs, p := SatMask(ps), SigMask(ps), ps[q];
    assert SatSeen(ps, p.sat - 1 + 1) && SigSeen(ps, p.sig - 1 + 1);
    hide Ones, CellCount;
    IdAtRank(sats, p.sat - 1);
    IdAtRank(sigs, p.sig - 1);
    RowMajorBound(Count(sats, p.sat - 1), Count(sigs, p.sig - 1), Ones(sats), Ones(sigs));
  }

  lemma CellSeenMore(sats: bits, sigs: bits, ps: seq<Signal>, p: Signal)
    requires |sats| == 64 && |sigs| == 32 && Proper(ps) && 1 <= p.sat <= 64 && 1 <= p.sig <= 32
    ensures Proper(ps + [p])
    ensures forall c :: CellSeen(sats, sigs, ps + [p], c) <==> CellSeen(sats, sigs, ps, c) || CellOf(sats, sigs, p) == c
  {
    hide CellOf;
    var ps' := ps + [p];
    assert ps'[|ps|] == p;
    forall c: int
      ensures CellSeen(sats, sigs, ps', c) <==> CellSeen(sats, sigs, ps, c) || CellOf(sats, sigs, p) == c
    {
      if CellSeen(sats, sigs, ps, c) {
        var q :| 0 <= q < |ps| && CellOf(sats, sigs, ps[q]) == c;
        assert CellOf(sats, sigs, ps'[q]) == c;
      }
      if CellOf(sats, sigs, p) == c {
        assert CellOf(sats, sigs, ps'[|ps|]) == c;
      }
    }
  }

  /** One visit of the second pass, to the j-th slot of the i-th observation. */
  lemma Visit(obs: seq<Obs>, all: seq<Signal>, i: nat, j: nat, ps: seq<Signal>)
    requires InRange(obs) && all == SignalsOf(obs, |obs|) && Proper(all) && i < |obs| && j < |obs[i].sigs|
    requires obs[i].sat != 0 && obs[i].sigs[j] != 0
    requires ps == SignalsOf(obs, i) + RowSignals(obs[i], j) && Proper(ps)
    ensures var p, sats, sigs := Signal(obs[i].sat, obs[i].sigs[j]), SatMask(all), SigMask(all);
            var cell := Numbered(sigs, p.sig - 1, 32) - 1 + (Numbered(sats, p.sat - 1, 64) - 1) * Ones(sigs);
            && Proper(ps + [p]) && 0 <= cell < CellCount(sats, sigs)
            && forall c :: CellSeen(sats, sigs, ps + [p], c) <==> CellSeen(sats, sigs, ps, c) || c == cell
  {
    hide Ones, CellCount, CellOf, CellSeen, SatMask, SigMask;
    var p, sats, sigs := Signal(obs[i].sat, obs[i].sigs[j]), SatMask(all), SigMask(all);
    VisitedPrefix(obs, i, j + 1, |obs|);
    assert all[|ps|] == p;
    CellIndex(all, |ps|);
    CellSeenMore(sats, sigs, ps, p);
    CellOfRanks(sats, sigs, p);
  }

  lemma CellOfRanks(sats: bits, sigs: bits, p: Signal)
    requires 1 <= p.sat <= |sats| && 1 <= p.sig <= |sigs|
    ensures Count(sigs, p.sig - 1) + 1 - 1 + (Count(sats, p.sat - 1) + 1 - 1) * Ones(sigs) == CellOf(sats, sigs, p)
  {
  }

  method MarkCells(obs: seq<Obs>, satInd: array<nat>, sigInd: array<nat>, cellInd: array<nat>, nsig: nat,
                   ghost all: seq<Signal>)
    requires InRange(obs) && all == SignalsOf(obs, |obs|) && Proper(all)
    requires satInd.Length == 64 && sigInd.Length == 32 && cellInd.Length == 64 * 32
    requires cellInd != satInd && cellInd != sigInd
    requires Numbers(satInd, SatMask(all), 64) && Numbers(sigInd, SigMask(all), 32) && nsig == Ones(SigMask(all))
    requires forall c :: 0 <= c < cellInd.Length ==> cellInd[c] == 0
    modifies cellInd
    ensures Marks(cellInd, CellMask(all))
  {
    hide Ones, CellCount, CellOf, CellSeen, SatMask, SigMask, Numbered;
    ghost var sats, sigs := SatMask(all), SigMask(all);
    ghost var ps := [];
    CellCountBound(sats, sigs);
    NothingSeen(sats, sigs);
    for i := 0 to |obs|
      invariant ps == SignalsOf(obs, i) && Proper(ps)
      invariant forall c :: 0 <= c < CellCount(sats, sigs) ==> cellInd[c] == Mark(CellSeen(sats, sigs, ps, c))
    {
      var sat := obs[i].sat;
      if sat == 0 {
        RowOfNone(obs[i], |obs[i].sigs|);
        continue;
      }
      for j := 0 to |obs[i].sigs|
        invariant ps == SignalsOf(obs, i) + RowSignals(obs[i], j) && Proper(ps)
        invariant forall c :: 0 <= c < CellCount(sats, sigs) ==> cellInd[c] == Mark(CellSeen(sats, sigs, ps, c))
      {
        var sig := obs[i].sigs[j];
        if sig == 0 {
          continue;
        }
        Visit(obs, all, i, j, ps);
        var cell := sigInd[sig - 1] - 1 + (satInd[sat - 1] - 1) * nsig;
        cellInd[cell] := 1;
        ps := ps + [Signal(sat, sig)];
      }
    }
  }

  lemma NothingSeen(sats: bits, sigs: bits)
    requires |sats| == 64 && |sigs| == 32
    ensures forall c :: !CellSeen(sats, sigs, [], c)
  {
  }

  method GenMsmIndex(obs: seq<Obs>, satInd: array<nat>, sigInd: array<nat>, cellInd: array<nat>)
    returns (nsat: nat, nsig: nat, ncell: nat)
    requires InRange(obs)
    requires satInd.Length == 64 && sigInd.Length == 32 && cellInd.Length == 64 * 32
    requires satInd != sigInd && cellInd != satInd && cellInd != sigInd
    requires (forall k :: 0 <= k < 64 ==> satInd[k] == 0) && (forall k :: 0 <= k < 32 ==> sigInd[k] == 0)
    requires forall c :: 0 <= c < cellInd.Length ==> cellInd[c] == 0
    modifies satInd, sigInd, cellInd
    ensures Proper(SignalsOf(obs, |obs|))
    ensures var ps := SignalsOf(obs, |obs|);
            && nsat == Ones(SatMask(ps)) && nsig == Ones(SigMask(ps))
            && ncell == (if Ones(CellMask(ps)) < 64 then Ones(CellMask(ps)) else 64)
            && Numbers(satInd, SatMask(ps), 64) && Numbers(sigInd, SigMask(ps), 32)
            && Numbers(cellInd, CellMask(ps), 64)
  {
    ghost var ps := SignalsOf(obs, |obs|);
    SignalsAreProper(obs, |obs|);
    MarkSeen(obs, satInd, sigInd);
    nsat := NumberMarks(satInd, 64, 64, SatMask(ps));
    nsig := NumberMarks(sigInd, 32, 32, SigMask(ps));
    MarkCells(obs, satInd, sigInd, cellInd, nsig, ps);
    ncell := NumberMarks(cellInd, 64, nsat * nsig, CellMask(ps));
  }
}
