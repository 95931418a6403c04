/**
 sigindex of c/rtklib/rtcm3.c: which observation slot each signal of an MSM
 goes to.  NFREQ and NEXOBS are set in a header that is not part of this model;
 they are parameters, and priorities are those getcodepri gives the codes.
 */
module SignalIndex {

  /** The signals of a message: code 0 is unknown, and then the frequency is 0 too. */
  datatype Signals = Signals(code: seq<nat>, freq: seq<nat>, pri: seq<int>)

  predicate Valid(g: Signals) {
    && |g.code| == |g.freq| == |g.pri| <= 32
    && forall k :: 0 <= k < |g.code| ==> (g.code[k] == 0 <==> g.freq[k] == 0)
  }

  /** A signal that may take a frequency's slot. */
  predicate Candidate(g: Signals, nfreq: nat, k: nat)
    requires Valid(g) && k < |g.code|
  {
    g.code[k] != 0 && g.freq[k] <= nfreq && g.pri[k] > 0
  }

  /** Among the first n signals, k is the first of the highest positive priority on its frequency. */
  predicate Best(g: Signals, nfreq: nat, n: nat, k: nat)
    requires Valid(g) && n <= |g.code|
  {
    && k < n && Candidate(g, nfreq, k)
    && forall j :: 0 <= j < n && j != k && g.code[j] != 0 && g.freq[j] == g.freq[k] ==>
         if j < k then g.pri[j] < g.pri[k] else g.pri[j] <= g.pri[k]
  }

  /** Among the first n, k is known but has lost its frequency's slot, or never had one to win. */
  predicate Extended(g: Signals, nfreq: nat, n: nat, k: nat)
    requires Valid(g) && k < n <= |g.code|
  {
    g.code[k] != 0 && !Best(g, nfreq, n, k)
  }

  /** How many of the first m signals are extended when all are considered. */
  function ExtendedBefore(g: Signals, nfreq: nat, m: nat): (c: nat)
    requires Valid(g) && m <= |g.code|
    ensures c <= m
  {
    if m == 0 then 0
    else ExtendedBefore(g, nfreq, m - 1) + if Extended(g, nfreq, |g.code|, m - 1) then 1 else 0
  }

  /** The slot of a signal: its frequency's, or the next extended one, or none. */
  function Slot(g: Signals, nfreq: nat, nexobs: nat, k: nat): int
    requires Valid(g) && k < |g.code|
  {
    if !Extended(g, nfreq, |g.code|, k) then g.freq[k] - 1
    else if ExtendedBefore(g, nfreq, k) < nexobs then nfreq + ExtendedBefore(g, nfreq, k)
    else -1
  }

  // ---------------------------------------------------------------- sigindex

  /** What the first loop's arrays say after n signals. */
  ghost predicate Chosen(g: Signals, nfreq: nat, n: nat, priH: seq<int>, index: seq<nat>, ex: seq<nat>)
    requires Valid(g) && n <= |g.code|
  {
    && |priH| == |index| == 8 && nfreq <= 8 && |ex| == 32
    && (forall f :: 0 <= f < nfreq ==> Winner(g, nfreq, n, f, priH[f], index[f]))
    && (forall k :: 0 <= k < n ==> ex[k] == if Extended(g, nfreq, n, k) then 1 else 0)
    && (forall k :: n <= k < 32 ==> ex[k] == 0)
  }

  /** The priority and the index (counted from 1) recorded for frequency f + 1; 0 for no signal. */
  predicate Winner(g: Signals, nfreq: nat, n: nat, f: nat, pri: int, index: nat)
    requires Valid(g) && n <= |g.code|
  {
    if index == 0 then
      pri == 0 && forall j :: 0 <= j < n && g.code[j] != 0 && g.freq[j] == f + 1 ==> g.pri[j] <= 0
    else
      index <= n && Best(g, nfreq, n, index - 1) && g.freq[index - 1] == f + 1 && pri == g.pri[index - 1]
  }

  /** Nobody on the frequency beats the recorded priority, and only the recorded signal is best. */
  lemma WinnerIsBest(g: Signals, nfreq: nat, n: nat, f: nat, pri: int, index: nat)
    requires Valid(g) && n <= |g.code| && Winner(g, nfreq, n, f, pri, index)
    ensures pri >= 0 && forall j :: 0 <= j < n && g.code[j] != 0 && g.freq[j] == f + 1 ==> g.pri[j] <= pri
    ensures forall k :: 0 <= k < n && g.freq[k] == f + 1 ==> (Best(g, nfreq, n, k) <==> index == k + 1)
  {
  }

  /** A signal of unknown code changes nothing. */
  lemma Skipped(g: Signals, nfreq: nat, n: nat, priH: seq<int>, index: seq<nat>, ex: seq<nat>)
    requires Valid(g) && n < |g.code| && Chosen(g, nfreq, n, priH, index, ex) && g.code[n] == 0
    ensures Chosen(g, nfreq, n + 1, priH, index, ex)
  {
  }

  /** A new signal unseats only a signal of its own frequency, and only one of lower priority. */
  lemma BestUnless(g: Signals, nfreq: nat, n: nat)
    requires Valid(g) && n < |g.code|
    ensures forall k :: 0 <= k < n && (g.code[n] == 0 || g.freq[n] != g.freq[k] || g.pri[n] <= g.pri[k]) ==>
              (Best(g, nfreq, n + 1, k) <==> Best(g, nfreq, n, k))
    ensures forall k :: 0 <= k < n && Best(g, nfreq, n + 1, k) ==> Best(g, nfreq, n, k)
    ensures forall k :: 0 <= k < n && Best(g, nfreq, n, k) ==> g.freq[k] <= nfreq
    ensures forall k :: 0 <= k < n && g.code[n] != 0 && g.freq[n] == g.freq[k] && g.pri[n] > g.pri[k] ==>
              !Best(g, nfreq, n + 1, k)
  {
  }

  /** A signal that does not win is extended, and nothing else changes. */
  lemma Lost(g: Signals, nfreq: nat, n: nat, priH: seq<int>, index: seq<nat>, ex: seq<nat>)
    requires Valid(g) && n < |g.code| && Chosen(g, nfreq, n, priH, index, ex) && g.code[n] != 0
    requires g.freq[n] > nfreq || g.pri[n] <= priH[g.freq[n] - 1]
    ensures Chosen(g, nfreq, n + 1, priH, index, ex[n := 1])
  {
    hide Best;
    BestUnless(g, nfreq, n);
    NewcomerBest(g, nfreq, n);
    if g.freq[n] <= nfreq {
      var f := g.freq[n] - 1;
      WinnerIsBest(g, nfreq, n, f, priH[f], index[f]);
      LostNewcomer(g, nfreq, n, f, priH[f], index[f]);
    }
    KeepWinners(g, nfreq, n, priH, index);
  }

  lemma NewcomerBest(g: Signals, nfreq: nat, n: nat)
    requires Valid(g) && n < |g.code|
    ensures Best(g, nfreq, n + 1, n) ==
            (Candidate(g, nfreq, n)
             && forall j :: 0 <= j < n && g.code[j] != 0 && g.freq[j] == g.freq[n] ==> g.pri[j] < g.pri[n])
  {
  }

  lemma LostNewcomer(g: Signals, nfreq: nat, n: nat, f: nat, pri: int, index: nat)
    requires Valid(g) && n < |g.code| && Winner(g, nfreq, n, f, pri, index)
    requires g.code[n] != 0 && g.freq[n] == f + 1 && g.pri[n] <= pri
    ensures !Best(g, nfreq, n + 1, n)
  {
  }

  /** Records stay right when the new signal does not beat them. */
  lemma KeepWinners(g: Signals, nfreq: nat, n: nat, priH: seq<int>, index: seq<nat>)
    requires Valid(g) && n < |g.code| && g.code[n] != 0 && nfreq <= 8 && |priH| == |index| == 8
    requires forall f :: 0 <= f < nfreq ==> Winner(g, nfreq, n, f, priH[f], index[f])
    ensures forall f :: 0 <= f < nfreq && (f + 1 != g.freq[n] || g.pri[n] <= priH[f]) ==>
              Winner(g, nfreq, n + 1, f, priH[f], index[f])
  {
  }

  /** A signal that wins takes the record; the one it beats, if any, is extended. */
  lemma Won(g: Signals, nfreq: nat, n: nat, priH: seq<int>, index: seq<nat>, ex: seq<nat>)
    requires Valid(g) && n < |g.code| && Chosen(g, nfreq, n, priH, index, ex) && g.code[n] != 0
    requires g.freq[n] <= nfreq && g.pri[n] > priH[g.freq[n] - 1]
    ensures var f := g.freq[n] - 1;
            index[f] <= n && Chosen(g, nfreq, n + 1, priH[f := g.pri[n]], index[f := n + 1],
                                    if index[f] == 0 then ex else ex[index[f] - 1 := 1])
  {
    hide Best;
    var f := g.freq[n] - 1;
    WinnerIsBest(g, nfreq, n, f, priH[f], index[f]);
    BestUnless(g, nfreq, n);
    NewcomerBest(g, nfreq, n);
    KeepWinners(g, nfreq, n, priH, index);
  }

  method SigIndex(nfreq: nat, nexobs: nat, g: Signals, ind: array<int>)
    requires Valid(g) && 1 <= nfreq <= 8 && ind.Length == 32
    modifies ind
    ensures forall k :: 0 <= k < |g.code| ==> ind[k] == Slot(g, nfreq, nexobs, k)
    ensures forall k :: |g.code| <= k < 32 ==> ind[k] == old(ind[k])
  {
    var n := |g.code|;
    var ex := TestCodePriority(nfreq, g);
    // signal index in obs data
    var nex := 0;
    for i := 0 to n
      invariant nex == if ExtendedBefore(g, nfreq, i) < nexobs then ExtendedBefore(g, nfreq, i) else nexobs
      invariant forall k :: 0 <= k < i ==> ind[k] == Slot(g, nfreq, nexobs, k)
      invariant forall k :: i <= k < 32 ==> ind[k] == old(ind[k])
    {
      if ex[i] == 0 {
        ind[i] := g.freq[i] as int - 1;
      } else if nex < nexobs {
        ind[i] := nfreq + nex;
        nex := nex + 1;
      } else {
        ind[i] := -1;
      }
    }
  }

  /** The loop that tests code priority; ex marks the extended signals. */
  method TestCodePriority(nfreq: nat, g: Signals) returns (ex: seq<nat>)
    requires Valid(g) && 1 <= nfreq <= 8
    ensures |ex| == 32 && forall k :: 0 <= k < |g.code| ==> ex[k] == if Extended(g, nfreq, |g.code|, k) then 1 else 0
  {
    hide Chosen;
    var priH, index, e := new int[8](_ => 0), new nat[8](_ => 0), new nat[32](_ => 0);
    NothingChosen(g, nfreq, priH[..], index[..], e[..]);
    for i := 0 to |g.code|
      invariant Chosen(g, nfreq, i, priH[..], index[..], e[..])
    {
      ghost var p, x, was := priH[..], index[..], e[..];
      if g.code[i] == 0 {
        Skipped(g, nfreq, i, p, x, was);
        continue;
      }
      if g.freq[i] > nfreq {
        Lost(g, nfreq, i, p, x, was);
        e[i] := 1;
        assert e[..] == was[i := 1];
        continue;
      }
      var pri := g.pri[i];
      if pri > priH[g.freq[i] - 1] {
        Won(g, nfreq, i, p, x, was);
        if index[g.freq[i] - 1] != 0 {
          e[index[g.freq[i] - 1] - 1] := 1;
        }
        priH[g.freq[i] - 1] := pri;
        index[g.freq[i] - 1] := i + 1;
        assert priH[..] == p[g.freq[i] - 1 := pri] && index[..] == x[g.freq[i] - 1 := i + 1];
        assert e[..] == if x[g.freq[i] - 1] == 0 then was else was[x[g.freq[i] - 1] - 1 := 1];
      } else {
        Lost(g, nfreq, i, p, x, was);
        e[i] := 1;
        assert e[..] == was[i := 1];
      }
    }
    ChosenExtended(g, nfreq, priH[..], index[..], e[..]);
    ex := e[..];
  }

  lemma NothingChosen(g: Signals, nfreq: nat, priH: seq<int>, index: seq<nat>, ex: seq<nat>)
    requires Valid(g) && nfreq <= 8 && |priH| == |index| == 8 && |ex| == 32
    requires (forall f :: 0 <= f < 8 ==> priH[f] == 0 && index[f] == 0) && forall k :: 0 <= k < 32 ==> ex[k] == 0
    ensures Chosen(g, nfreq, 0, priH, index, ex)
  {
  }

  lemma ChosenExtended(g: Signals, nfreq: nat, priH: seq<int>, index: seq<nat>, ex: seq<nat>)
    requires Valid(g) && Chosen(g, nfreq, |g.code|, priH, index, ex)
    ensures |ex| == 32 && forall k :: 0 <= k < |g.code| ==> ex[k] == if Extended(g, nfreq, |g.code|, k) then 1 else 0
  {
  }

  // ------------------------------------------------------------ properties

  lemma {:induction false} ExtendedBeforeGrows(g: Signals, nfreq: nat, i: nat, j: nat)
    requires Valid(g) && i <= j <= |g.code|
    ensures ExtendedBefore(g, nfreq, i) <= ExtendedBefore(g, nfreq, j)
    ensures i < j && Extended(g, nfreq, |g.code|, i) ==> ExtendedBefore(g, nfreq, i) < ExtendedBefore(g, nfreq, j)
  {
    hide Extended;
    if i < j {
      ExtendedBeforeGrows(g, nfreq, i, j - 1);
    }
  }

  /** No two signals get the same slot. */
  lemma SlotsAreDistinct(g: Signals, nfreq: nat, nexobs: nat, i: nat, j: nat)
    requires Valid(g) && i < |g.code| && j < |g.code| && i != j && Slot(g, nfreq, nexobs, i) >= 0
    ensures Slot(g, nfreq, nexobs, i) != Slot(g, nfreq, nexobs, j)
  {
    hide Best;
    ExtendedBeforeGrows(g, nfreq, if i < j then i else j, if i < j then j else i);
    SlotKind(g, nfreq, nexobs, i);
    SlotKind(g, nfreq, nexobs, j);
    if g.freq[i] == g.freq[j] {
      OneBest(g, nfreq, i, j);
    }
  }

  lemma OneBest(g: Signals, nfreq: nat, i: nat, j: nat)
    requires Valid(g) && i < |g.code| && j < |g.code| && i != j && g.freq[i] == g.freq[j]
    ensures !(Best(g, nfreq, |g.code|, i) && Best(g, nfreq, |g.code|, j))
  {
  }

  /**
   What a slot says: below nfreq, the signal is the first of the highest
   positive priority on that frequency; from nfreq on, it is one of the first
   nexobs others; -1, it is unknown or one of the others for which there was no
   space.
   */
  lemma SlotKind(g: Signals, nfreq: nat, nexobs: nat, k: nat)
    requires Valid(g) && k < |g.code|
    ensures var s, n := Slot(g, nfreq, nexobs, k), |g.code|;
            && -1 <= s < nfreq + nexobs
            && (0 <= s < nfreq <==> Best(g, nfreq, n, k))
            && (0 <= s < nfreq ==> s == g.freq[k] - 1)
            && (nfreq <= s <==> g.code[k] != 0 && !Best(g, nfreq, n, k) && ExtendedBefore(g, nfreq, k) < nexobs)
            && (s == -1 <==> g.code[k] == 0 || (!Best(g, nfreq, n, k) && ExtendedBefore(g, nfreq, k) >= nexobs))
  {
  }

  /** A frequency's slot goes to the first of the signals on it that have the highest priority, if that is positive. */
  lemma FrequencySlot(g: Signals, nfreq: nat, nexobs: nat, k: nat, f: nat)
    requires Valid(g) && k < |g.code| && f < nfreq
    ensures Slot(g, nfreq, nexobs, k) == f <==>
            && g.code[k] != 0 && g.freq[k] == f + 1 && g.pri[k] > 0
            && forall j :: 0 <= j < |g.code| && g.code[j] != 0 && g.freq[j] == f + 1 && j != k ==>
                 g.pri[j] < g.pri[k] || (g.pri[j] == g.pri[k] && j > k)
  {
    SlotKind(g, nfreq, nexobs, k);
  }

  /** Extended slots are given out in the order of the signals. */
  lemma ExtendedInOrder(g: Signals, nfreq: nat, nexobs: nat, i: nat, j: nat)
    requires Valid(g) && i < j < |g.code|
    requires Slot(g, nfreq, nexobs, i) >= nfreq && Slot(g, nfreq, nexobs, j) >= nfreq
    ensures Slot(g, nfreq, nexobs, i) < Slot(g, nfreq, nexobs, j)
  {
    hide Best;
    ExtendedBeforeGrows(g, nfreq, i, j);
    SlotKind(g, nfreq, nexobs, i);
    SlotKind(g, nfreq, nexobs, j);
  }

  /** The last of the first m signals that is extended. */
  lemma {:induction false} LastExtended(g: Signals, nfreq: nat, m: nat) returns (i: nat)
    requires Valid(g) && m <= |g.code| && ExtendedBefore(g, nfreq, m) > 0
    ensures i < m && Extended(g, nfreq, |g.code|, i) && ExtendedBefore(g, nfreq, i) + 1 == ExtendedBefore(g, nfreq, m)
  {
    hide Extended;
    if Extended(g, nfreq, |g.code|, m - 1) {
      i := m - 1;
    } else {
      i := LastExtended(g, nfreq, m - 1);
    }
  }

  /** And without gaps: the slot before an extended one, unless it is the first, has gone to an earlier signal. */
  lemma ExtendedWithoutGaps(g: Signals, nfreq: nat, nexobs: nat, k: nat)
    requires Valid(g) && k < |g.code| && Slot(g, nfreq, nexobs, k) > nfreq
    ensures exists i :: 0 <= i < k && Slot(g, nfreq, nexobs, i) == Slot(g, nfreq, nexobs, k) - 1
  {
    hide Best;
    SlotKind(g, nfreq, nexobs, k);
    var i := LastExtended(g, nfreq, k);
    assert Slot(g, nfreq, nexobs, i) == Slot(g, nfreq, nexobs, k) - 1;
  }

  /** A known signal goes without a slot only after the last extended one has gone to an earlier signal. */
  lemma NoSpaceLeft(g: Signals, nfreq: nat, nexobs: nat, k: nat)
    requires Valid(g) && k < |g.code| && g.code[k] != 0 && Slot(g, nfreq, nexobs, k) == -1
    ensures !Best(g, nfreq, |g.code|, k)
    ensures nexobs == 0 || exists i :: 0 <= i < k && Slot(g, nfreq, nexobs, i) == nfreq + nexobs - 1
  {
    SlotKind(g, nfreq, nexobs, k);
    hide Best;
    if nexobs > 0 {
      var i := NthExtended(g, nfreq, nexobs - 1, k);
      assert Slot(g, nfreq, nexobs, i) == nfreq + nexobs - 1;
    }
  }

  lemma {:induction false} NthExtended(g: Signals, nfreq: nat, c: nat, m: nat) returns (i: nat)
    requires Valid(g) && m <= |g.code| && c < ExtendedBefore(g, nfreq, m)
    ensures i < m && Extended(g, nfreq, |g.code|, i) && ExtendedBefore(g, nfreq, i) == c
    decreases m
  {
    hide Extended;
    i := LastExtended(g, nfreq, m);
    if ExtendedBefore(g, nfreq, i) != c {
      i := NthExtended(g, nfreq, c, i);
    }
  }

  /** A frequency with a signal of positive priority does not go without. */
  lemma {:induction false} SlotIsTaken(g: Signals, nfreq: nat, n: nat, j: nat) returns (k: nat)
    requires Valid(g) && j < n <= |g.code| && Candidate(g, nfreq, j)
    ensures k < n && Best(g, nfreq, n, k) && g.freq[k] == g.freq[j]
    decreases n
  {
    hide Best, Candidate;
    if i: nat :| i < n - 1 && Candidate(g, nfreq, i) && g.freq[i] == g.freq[j] {
      k := SlotIsTaken(g, nfreq, n - 1, i);
      BestUnless(g, nfreq, n - 1);
      if g.code[n - 1] != 0 && g.freq[n - 1] == g.freq[k] && g.pri[n - 1] > g.pri[k] {
        BeatsAll(g, nfreq, n - 1, k);
        k := n - 1;
      }
    } else {
      OnlyCandidate(g, nfreq, n, j);
      k := n - 1;
    }
  }

  lemma OnlyCandidate(g: Signals, nfreq: nat, n: nat, j: nat)
    requires Valid(g) && j < n <= |g.code| && Candidate(g, nfreq, j)
    requires forall i :: 0 <= i < n - 1 && Candidate(g, nfreq, i) ==> g.freq[i] != g.freq[j]
    ensures j == n - 1 && Best(g, nfreq, n, j)
  {
  }

  lemma BeatsAll(g: Signals, nfreq: nat, n: nat, k: nat)
    requires Valid(g) && n < |g.code| && Best(g, nfreq, n, k)
    requires g.code[n] != 0 && g.freq[n] == g.freq[k] && g.pri[n] > g.pri[k]
    ensures Best(g, nfreq, n + 1, n)
  {
  }
}
