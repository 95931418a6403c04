/**
 adjweek of c/rtklib/rtcm3.c with gpst2time and time2gpst of c/rtklib/rtkcmn.c:
 the GPS week of a time of week, chosen nearest to the time so far.  A time is
 whole seconds and a fraction, which a truncating conversion can leave
 negative; real arithmetic stands for double.
 */
module AdjWeek {

  /** gtime_t; time is Unix seconds. */
  datatype GTime = GTime(time: int, sec: real)

  /** epoch2time(gpst0): 6 January 1980. */
  const GPST0 := 315964800
  const WEEK := 604800

  /** A conversion from double to int, and a division of integers, in C: towards zero. */
  function Truncate(x: real): int {
    if x >= 0.0 then x.Floor else -(-x).Floor
  }

  function DivTruncate(a: int, b: int): int
    requires b > 0
  {
    if a >= 0 then a / b else -(-a / b)
  }

  function Time2Gpst(t: GTime): (r: (real, int)) {
    var sec := t.time - GPST0;
    var w := DivTruncate(sec, WEEK);
    ((sec - w * WEEK) as real + t.sec, w)
  }

  function Gpst2Time(week: int, tow: real): GTime {
    var sec := if tow < -1000000000.0 || 1000000000.0 < tow then 0.0 else tow;
    GTime(GPST0 + WEEK * week + Truncate(sec), sec - Truncate(sec) as real)
  }

  /** The time after adjweek; the computer's clock is only asked if there is no time yet. */
  function Adjusted(t: GTime, clock: GTime, tow: real): GTime {
    var now := if t.time == 0 then clock else t;
    var (towP, week) := Time2Gpst(now);
    var adjusted :=
      if tow < towP - 302400.0 then tow + 604800.0
      else if tow > towP + 302400.0 then tow - 604800.0
      else tow;
    Gpst2Time(week, adjusted)
  }

  /** The field of rtcm_t that adjweek updates. */
  class Rtcm {
    var time: GTime

    constructor (start: GTime)
      ensures time == start
    {
      time := start;
    }

    method AdjWeek(clock: GTime, timeOfWeek: real)
      modifies this
      ensures time == Adjusted(old(time), clock, timeOfWeek)
    {
      if time.time == 0 {
        time := clock;
      }
      var (towP, week) := Time2Gpst(time);
      var tow := timeOfWeek;
      if tow < towP - 302400.0 {
        tow := tow + 604800.0;
      } else if tow > towP + 302400.0 {
        tow := tow - 604800.0;
      }
      time := Gpst2Time(week, tow);
    }
  }

  /** The seconds since the start of GPS time that a gtime_t stands for. */
  function Seconds(t: GTime): real {
    (t.time - GPST0) as real + t.sec
  }

  /** A time in GPS time's range, as RTKLIB represents it. */
  predicate Proper(t: GTime) {
    t.time >= GPST0 && -1.0 < t.sec < 1.0
  }

  /** A time of week, in the range a message can give (14 seconds more for Beidou's). */
  predicate TimeOfWeek(tow: real) {
    0.0 <= tow <= 604814.0
  }

  /** tow is the time of week of the instant. */
  predicate IsTow(instant: real, tow: real, week: int) {
    instant == (WEEK * week) as real + tow
  }

  lemma Split(t: GTime)
    requires Proper(t)
    ensures var (tow, week) := Time2Gpst(t); IsTow(Seconds(t), tow, week) && -1.0 < tow < 604800.0 && week >= 0
  {
  }

  /** What one call chooses: the instants with the given time of week lie whole weeks apart. */
  function Chosen(towP: real, tow: real): int {
    if tow < towP - 302400.0 then 1 else if tow > towP + 302400.0 then -1 else 0
  }

  lemma Adjusts(t: GTime, clock: GTime, tow: real)
    requires Proper(t) && TimeOfWeek(tow)
    ensures var (towP, week) := Time2Gpst(t);
            var r := Adjusted(t, clock, tow);
            IsTow(Seconds(r), tow, week + Chosen(towP, tow)) && -1.0 < r.sec < 1.0
  {
  }

  /** The choice is the nearest week; on the boundary, the week that is already there. */
  lemma Nearest(towP: real, tow: real, k: int)
    requires -1.0 < towP < 604800.0 && TimeOfWeek(tow)
    ensures Chosen(towP, tow) == k <==>
            var d := tow + (WEEK * k) as real - towP;
            -302400.0 < d < 302400.0 || ((d == 302400.0 || d == -302400.0) && k == 0)
  {
  }

  /**
   One call reconstructs an instant from its time of week exactly when it is
   less than half a week from the time so far, or just half a week from it and
   the two are given the same week.
   */
  lemma StepExact(t: GTime, clock: GTime, instant: real, tow: real, week: int)
    requires Proper(t) && TimeOfWeek(tow) && IsTow(instant, tow, week)
    ensures Seconds(Adjusted(t, clock, tow)) == instant <==>
            var d := instant - Seconds(t);
            -302400.0 < d < 302400.0 || ((d == 302400.0 || d == -302400.0) && week == Time2Gpst(t).1)
  {
    Split(t);
    Adjusts(t, clock, tow);
    var (towP, w) := Time2Gpst(t);
    Nearest(towP, tow, week - w);
  }

  /** The clock is asked if there is no time yet, and then stands for it; else it does not matter. */
  lemma ClockIsFirstTime(t: GTime, clock: GTime, other: GTime, tow: real)
    requires clock.time != 0
    ensures t.time == 0 ==> Adjusted(t, clock, tow) == Adjusted(clock, other, tow)
    ensures t.time != 0 ==> Adjusted(t, clock, tow) == Adjusted(t, other, tow)
  {
  }

  /** GPS time begins on 6 January 1980, 315964800 seconds after Unix time, and a week has 604800 seconds. */
  lemma GpsTimeBegins()
    ensures Gpst2Time(0, 0.0) == GTime(315964800, 0.0) && Time2Gpst(GTime(315964800, 0.0)) == (0.0, 0)
    ensures Gpst2Time(1, 0.0) == GTime(316569600, 0.0) && Time2Gpst(GTime(316569600, 0.0)) == (0.0, 1)
  {
  }

  /** A time of week beyond a thousand million seconds counts as none. */
  lemma TimeOfWeekLimits(week: int, tow: real)
    ensures Seconds(Gpst2Time(week, tow)) ==
            (604800 * week) as real + if -1000000000.0 <= tow <= 1000000000.0 then tow else 0.0
    ensures -1.0 < Gpst2Time(week, tow).sec < 1.0
  {
  }

  /** The two conversions undo each other. */
  lemma TimeRoundTrip(t: GTime)
    requires Proper(t)
    ensures var (tow, week) := Time2Gpst(t);
            && Seconds(Gpst2Time(week, tow)) == Seconds(t)
            && (0.0 <= t.sec ==> Gpst2Time(week, tow) == t)
  {
    Split(t);
  }

  // ------------------------------------------------------------ whole runs

  /** An instant, with the week and the time of week that a message's sender gives it. */
  datatype Sent = Sent(instant: real, week: int, tow: real)

  predicate ValidSent(x: Sent) {
    x.instant >= 0.0 && TimeOfWeek(x.tow) && IsTow(x.instant, x.tow, x.week)
  }

  /** The times after successive calls. */
  function Run(t: GTime, clock: GTime, xs: seq<Sent>): (r: seq<real>)
    ensures |r| == |xs|
    decreases |xs|
  {
    if xs == [] then [] else
      var next := Adjusted(t, clock, xs[0].tow);
      [Seconds(next)] + Run(next, clock, xs[1..])
  }

  function Instants(xs: seq<Sent>): (r: seq<real>)
    ensures |r| == |xs|
  {
    if xs == [] then [] else [xs[0].instant] + Instants(xs[1..])
  }

  /** The week in which the run goes on after an instant: that of its whole seconds, counted from the week so far. */
  function WeekAfter(week: int, instant: real): int {
    DivTruncate(WEEK * week + Truncate(instant - (WEEK * week) as real), WEEK)
  }

  /** The instant can be told from its time of week, from the instant and the week before. */
  predicate InReach(from: real, week: int, x: Sent) {
    var d := x.instant - from;
    -302400.0 < d < 302400.0 || ((d == 302400.0 || d == -302400.0) && x.week == week)
  }

  /** Each instant is in reach of the one before it. */
  predicate AllInReach(from: real, week: int, xs: seq<Sent>)
    decreases |xs|
  {
    xs == [] || (InReach(from, week, xs[0]) && AllInReach(xs[0].instant, WeekAfter(week, xs[0].instant), xs[1..]))
  }

  /** A run reconstructs every instant exactly when each is in reach of the one before it. */
  lemma {:induction false} RunExact(t: GTime, clock: GTime, xs: seq<Sent>)
    requires Proper(t) && forall k :: 0 <= k < |xs| ==> ValidSent(xs[k])
    ensures Run(t, clock, xs) == Instants(xs) <==> AllInReach(Seconds(t), Time2Gpst(t).1, xs)
    decreases |xs|
  {
    hide Adjusted, InReach, Seconds, WeekAfter, Time2Gpst;
    if xs != [] {
      var x, next := xs[0], Adjusted(t, clock, xs[0].tow);
      OneCall(t, clock, x);
      var r, i := Run(t, clock, xs), Instants(xs);
      assert r[0] == Seconds(next) && r[1..] == Run(next, clock, xs[1..]);
      assert i[0] == x.instant && i[1..] == Instants(xs[1..]);
      assert r == [r[0]] + r[1..] && i == [i[0]] + i[1..];
      if InReach(Seconds(t), Time2Gpst(t).1, x) {
        RunExact(next, clock, xs[1..]);
      }
    }
  }

  lemma OneCall(t: GTime, clock: GTime, x: Sent)
    requires Proper(t) && ValidSent(x)
    ensures var next, reach := Adjusted(t, clock, x.tow), InReach(Seconds(t), Time2Gpst(t).1, x);
            && (Seconds(next) == x.instant <==> reach)
            && (reach ==> Proper(next) && Time2Gpst(next).1 == WeekAfter(Time2Gpst(t).1, x.instant))
  {
    StepExact(t, clock, x.instant, x.tow, x.week);
    Adjusts(t, clock, x.tow);
  }

  /** A run that begins without a time is one that begins at the clock's. */
  lemma FirstRunExact(t: GTime, clock: GTime, xs: seq<Sent>)
    requires t.time == 0 && Proper(clock) && forall k :: 0 <= k < |xs| ==> ValidSent(xs[k])
    ensures Run(t, clock, xs) == Instants(xs) <==> AllInReach(Seconds(clock), Time2Gpst(clock).1, xs)
  {
    RunExact(clock, clock, xs);
    if xs != [] {
      ClockIsFirstTime(t, clock, clock, xs[0].tow);
    }
  }

  /** Each instant strictly within half a week of the one before it, either way. */
  predicate HalfWeekSteps(from: real, xs: seq<Sent>)
    decreases |xs|
  {
    xs == [] || (-302400.0 < xs[0].instant - from < 302400.0 && HalfWeekSteps(xs[0].instant, xs[1..]))
  }

  /** In particular a run from an exact time, in steps of less than half a week, is reconstructed. */
  lemma {:induction false} HalfWeekRun(t: GTime, clock: GTime, xs: seq<Sent>)
    requires Proper(t) && HalfWeekSteps(Seconds(t), xs) && forall k :: 0 <= k < |xs| ==> ValidSent(xs[k])
    ensures Run(t, clock, xs) == Instants(xs)
    decreases |xs|
  {
    hide Adjusted, Seconds, WeekAfter, Time2Gpst;
    if xs != [] {
      OneCall(t, clock, xs[0]);
      assert InReach(Seconds(t), Time2Gpst(t).1, xs[0]);
      HalfWeekRun(Adjusted(t, clock, xs[0].tow), clock, xs[1..]);
    }
  }
}
