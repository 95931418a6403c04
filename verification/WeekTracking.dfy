/**
 Week tracking in the Go handler (rtcm/handler/handler.go): New and the methods
 getUTCFromGPSTime, getUTCFromBeidouTime and getUTCFromGlonassTime, called on
 one handler.  Instants are milliseconds in UTC, counted from midnight at the
 start of some Sunday; AddDate(0, 0, 7) is seven times 24 hours there.
 */
module WeekTracking {
  import opened Bits
  import opened Frames

  const DAY := 24 * 3600 * 1000
  const WEEK := 7 * DAY

  /** GPS and Beidou time are ahead of UTC by their leap seconds, Glonass time by three hours. */
  const GPS_LEAD := 18 * 1000
  const BEIDOU_LEAD := 4 * 1000
  const GLONASS_LEAD := 3 * 3600 * 1000

  // ------------------------------------------------------------ true time

  /** The timestamp that a satellite system ahead of UTC gives an instant. */
  function Stamp(t: int, lead: int): (s: nat)
    ensures s < WEEK
  {
    (t + lead) % WEEK
  }

  /** The UTC start of the system's week that holds the instant. */
  function WeekStart(t: int, lead: int): int {
    t - Stamp(t, lead)
  }

  // -------------------------------------------------- GPS and Beidou weeks

  /** A handler's fields for one system. */
  datatype Week = Week(start: int, previous: nat)

  /** getUTCFromTimestamp, with the updates its callers make; None is the range error. */
  function Convert(w: Week, timestamp: nat): (Option<int>, Week) {
    if timestamp > WEEK - 1 then (None, w)
    else
      var start := if w.previous > timestamp then w.start + WEEK else w.start;
      (Some(start + timestamp), Week(start, timestamp))
  }

  predicate Aligned(w: Week, lead: int) {
    (w.start + lead) % WEEK == 0 && w.previous < WEEK
  }

  /**
   One call gives back the instant it is stamped with exactly when that is not
   before the previous instant and less than a week after it; the handler then
   knows the instant's week.
   */
  lemma StepExact(w: Week, lead: int, t: int)
    requires Aligned(w, lead)
    ensures Convert(w, Stamp(t, lead)).0 == Some(t) <==> w.start + w.previous <= t < w.start + w.previous + WEEK
    ensures Convert(w, Stamp(t, lead)).0 == Some(t) ==>
              Convert(w, Stamp(t, lead)).1 == Week(WeekStart(t, lead), Stamp(t, lead))
  {
  }

  /**
   A timestamp out of range is an error and changes nothing; any other stands
   for the first instant so stamped that is not before the previous one.
   */
  lemma ConvertMeans(w: Week, lead: int, timestamp: nat)
    requires Aligned(w, lead)
    ensures var (t, next) := Convert(w, timestamp); var last := w.start + w.previous;
            && (t.None? <==> timestamp >= 604_800_000)
            && (t.None? ==> next == w)
            && (t.Some? ==>
                  && last <= t.value < last + 604_800_000 && (t.value + lead) % 604_800_000 == timestamp
                  && next == Week(t.value - timestamp, timestamp))
  {
  }

  /** Successive calls. */
  function Track(w: Week, stamps: seq<nat>): (r: seq<Option<int>>)
    ensures |r| == |stamps|
    decreases |stamps|
  {
    if stamps == [] then [] else [Convert(w, stamps[0]).0] + Track(Convert(w, stamps[0]).1, stamps[1..])
  }

  function Stamps(ts: seq<int>, lead: int): (r: seq<nat>)
    ensures |r| == |ts|
  {
    if ts == [] then [] else [Stamp(ts[0], lead)] + Stamps(ts[1..], lead)
  }

  function Somes(ts: seq<int>): (r: seq<Option<int>>)
    ensures |r| == |ts|
  {
    if ts == [] then [] else [Some(ts[0])] + Somes(ts[1..])
  }

  /** Instants that do not go back, and no gap, from the first one on, reaches a week. */
  predicate ShortGaps(from: int, ts: seq<int>)
    decreases |ts|
  {
    ts == [] || (from <= ts[0] < from + WEEK && ShortGaps(ts[0], ts[1..]))
  }

  /** A whole run is converted back right exactly when it has no step back and no gap of a week. */
  lemma {:induction false} TrackExact(w: Week, lead: int, ts: seq<int>)
    requires Aligned(w, lead)
    ensures Track(w, Stamps(ts, lead)) == Somes(ts) <==> ShortGaps(w.start + w.previous, ts)
    decreases |ts|
  {
    hide Convert, Stamp;
    if ts != [] {
      var t, stamps := ts[0], Stamps(ts, lead);
      StepExact(w, lead, t);
      assert stamps[1..] == Stamps(ts[1..], lead);
      var r, w' := Track(w, stamps), Convert(w, stamps[0]).1;
      assert r[0] == Convert(w, stamps[0]).0 && r[1..] == Track(w', stamps[1..]);
      assert Somes(ts)[0] == Some(t) && Somes(ts)[1..] == Somes(ts[1..]);
      FirstAndRest(r, Somes(ts));
      if r[0] == Some(t) {
        NewWeek(t, lead);
        TrackExact(w', lead, ts[1..]);
      }
    }
  }

  lemma FirstAndRest(a: seq<Option<int>>, b: seq<Option<int>>)
    requires |a| == |b| > 0
    ensures a == b <==> a[0] == b[0] && a[1..] == b[1..]
  {
  }

  lemma NewWeek(t: int, lead: int)
    ensures Aligned(Week(WeekStart(t, lead), Stamp(t, lead)), lead)
    ensures WeekStart(t, lead) + Stamp(t, lead) == t
  {
  }

  // ---------------------------------------------------------------- Glonass

  /** A Glonass timestamp: the day of the Moscow week above the milliseconds of the day. */
  const DAY_UNIT := 0x800_0000

  function GlonassStamp(t: int): nat {
    (t + GLONASS_LEAD) / DAY % 7 * DAY_UNIT + (t + GLONASS_LEAD) % DAY
  }

  /** ParseTimestamp for Glonass. */
  function ParseGlonass(timestamp: nat): Option<(nat, nat)> {
    if timestamp > 6 * DAY_UNIT + (DAY - 1) then None
    else if timestamp % DAY_UNIT >= DAY then None
    else Some((timestamp / DAY_UNIT, timestamp % DAY_UNIT))
  }

  lemma ParseStamp(t: int)
    ensures ParseGlonass(GlonassStamp(t)) == Some(((t + GLONASS_LEAD) / DAY % 7, (t + GLONASS_LEAD) % DAY))
  {
  }

  /** The two parts as fields of an epoch: three bits for the day, 27 for the milliseconds. */
  lemma GlonassStampBits(t: int)
    ensures ToBits(GlonassStamp(t), 30) ==
            ToBits((t + 10_800_000) / 86_400_000 % 7, 3) + ToBits((t + 10_800_000) % 86_400_000, 27)
  {
    hide ToBits;
    var day, millis := (t + 10_800_000) / 86_400_000 % 7, (t + 10_800_000) % 86_400_000;
    assert Pow2(27) == 0x800_0000 by { Pow2Add(13, 14); }
    ToBitsSplit(GlonassStamp(t), 3, 27);
    DivModUnique(GlonassStamp(t), 0x800_0000, day, millis);
    ToBitsCongruent(GlonassStamp(t), millis, 27);
    DivModRange(millis, 0x800_0000);
  }

  /** A day of seven or milliseconds beyond the day are an error. */
  lemma ParseGlonassError(timestamp: nat)
    ensures ParseGlonass(timestamp) ==
            if timestamp / 134_217_728 >= 7 || timestamp % 134_217_728 >= 86_400_000 then None
            else Some((timestamp / 134_217_728, timestamp % 134_217_728))
  {
  }

  /** GPS time is 18 seconds, Beidou time 4 seconds and Glonass time 3 hours ahead of UTC. */
  lemma StampsInMilliseconds(t: int)
    ensures Stamp(t, GPS_LEAD) == (t + 18_000) % 604_800_000
    ensures Stamp(t, BEIDOU_LEAD) == (t + 4_000) % 604_800_000
    ensures GlonassStamp(t) == (t + 10_800_000) / 86_400_000 % 7 * 134_217_728 + (t + 10_800_000) % 86_400_000
    ensures WeekStart(t, GPS_LEAD) == t - (t + 18_000) % 604_800_000
    ensures WeekStart(t, BEIDOU_LEAD) == t - (t + 4_000) % 604_800_000
    ensures WeekStart(t, GLONASS_LEAD) == t - (t + 10_800_000) % 604_800_000
  {
  }

  datatype GlonassWeek = GlonassWeek(start: int, day: nat)

  function ConvertGlonass(w: GlonassWeek, timestamp: nat): (Option<int>, GlonassWeek) {
    match ParseGlonass(timestamp)
    case None => (None, w)
    case Some((day, millis)) =>
      var start := if day < w.day then w.start + WEEK else w.start;
      (Some(start + day * DAY + millis), GlonassWeek(start, day))
  }

  predicate GlonassAligned(w: GlonassWeek) {
    (w.start + GLONASS_LEAD) % WEEK == 0 && w.day < 7
  }

  /** The number of the Moscow day that an instant falls on. */
  function MoscowDay(t: int): int {
    (t + GLONASS_LEAD) / DAY
  }

  /** The day the handler last saw. */
  function LastDay(w: GlonassWeek): int {
    MoscowDay(w.start) + w.day
  }

  /** One call is right exactly when the day is none of the days before the last one, and less than seven after it. */
  lemma GlonassStepExact(w: GlonassWeek, t: int)
    requires GlonassAligned(w)
    ensures ConvertGlonass(w, GlonassStamp(t)).0 == Some(t) <==> LastDay(w) <= MoscowDay(t) < LastDay(w) + 7
    ensures ConvertGlonass(w, GlonassStamp(t)).0 == Some(t) ==>
              var w' := ConvertGlonass(w, GlonassStamp(t)).1; GlonassAligned(w') && LastDay(w') == MoscowDay(t)
  {
    hide GlonassStamp, ParseGlonass;
    ParseStamp(t);
    var day, millis := MoscowDay(t) % 7, (t + GLONASS_LEAD) % DAY;
    StartDay(w);
    DayStep(MoscowDay(w.start), w.day, MoscowDay(t));
    assert t + GLONASS_LEAD == DAY * MoscowDay(t) + millis;
  }

  /** Like ConvertMeans, over Moscow days. */
  lemma ConvertGlonassMeans(w: GlonassWeek, timestamp: nat)
    requires GlonassAligned(w)
    ensures var (t, next) := ConvertGlonass(w, timestamp);
            && (t.None? <==> timestamp / 134_217_728 >= 7 || timestamp % 134_217_728 >= 86_400_000)
            && (t.None? ==> next == w)
            && (t.Some? ==>
                  && GlonassStamp(t.value) == timestamp && LastDay(w) <= MoscowDay(t.value) < LastDay(w) + 7
                  && next.day == timestamp / 134_217_728 && LastDay(next) == MoscowDay(t.value))
  {
    ParseGlonassError(timestamp);
    hide ParseGlonass;
    if ConvertGlonass(w, timestamp).0.Some? {
      StartDay(w);
      var day, millis := timestamp / 134_217_728, timestamp % 134_217_728;
      GlonassDate(MoscowDay(w.start) + (if day < w.day then 7 else 0), day, millis);
    }
  }

  lemma GlonassDate(first: int, day: nat, millis: nat)
    requires first % 7 == 0 && day < 7 && millis < DAY
    ensures var t := first * DAY + day * DAY + millis - GLONASS_LEAD;
            MoscowDay(t) == first + day && GlonassStamp(t) == day * DAY_UNIT + millis
  {
    var t := first * DAY + day * DAY + millis - GLONASS_LEAD;
    DivModUnique(t + GLONASS_LEAD, DAY, first + day, millis);
  }

  lemma DayStep(first: int, p: nat, d: int)
    requires first % 7 == 0 && p < 7
    ensures first + (if d % 7 < p then 7 else 0) + d % 7 == d <==> first + p <= d < first + p + 7
  {
  }

  lemma StartDay(w: GlonassWeek)
    requires GlonassAligned(w)
    ensures w.start + GLONASS_LEAD == DAY * MoscowDay(w.start) && MoscowDay(w.start) % 7 == 0
    ensures MoscowDay(w.start + WEEK) == MoscowDay(w.start) + 7
  {
  }

  function TrackGlonass(w: GlonassWeek, stamps: seq<nat>): (r: seq<Option<int>>)
    ensures |r| == |stamps|
    decreases |stamps|
  {
    if stamps == [] then []
    else [ConvertGlonass(w, stamps[0]).0] + TrackGlonass(ConvertGlonass(w, stamps[0]).1, stamps[1..])
  }

  function GlonassStamps(ts: seq<int>): (r: seq<nat>)
    ensures |r| == |ts|
  {
    if ts == [] then [] else [GlonassStamp(ts[0])] + GlonassStamps(ts[1..])
  }

  predicate ShortDayGaps(from: int, ts: seq<int>)
    decreases |ts|
  {
    ts == [] || (from <= MoscowDay(ts[0]) < from + 7 && ShortDayGaps(MoscowDay(ts[0]), ts[1..]))
  }

  lemma {:induction false} TrackGlonassExact(w: GlonassWeek, ts: seq<int>)
    requires GlonassAligned(w)
    ensures TrackGlonass(w, GlonassStamps(ts)) == Somes(ts) <==> ShortDayGaps(LastDay(w), ts)
    decreases |ts|
  {
    hide ConvertGlonass, GlonassStamp, GlonassAligned, LastDay, MoscowDay;
    if ts != [] {
      var t, stamps := ts[0], GlonassStamps(ts);
      GlonassStepExact(w, t);
      assert stamps[1..] == GlonassStamps(ts[1..]);
      var r, w' := TrackGlonass(w, stamps), ConvertGlonass(w, stamps[0]).1;
      assert r[0] == ConvertGlonass(w, stamps[0]).0 && r[1..] == TrackGlonass(w', stamps[1..]);
      assert Somes(ts)[0] == Some(t) && Somes(ts)[1..] == Somes(ts[1..]);
      FirstAndRest(r, Somes(ts));
      if r[0] == Some(t) {
        TrackGlonassExact(w', ts[1..]);
      }
    }
  }

  // ------------------------------------------------------------ the handler

  /** now.Weekday(), 0 for Sunday. */
  function Weekday(now: int): nat {
    now / DAY % 7
  }

  /** getStartOfLastSundayUTC */
  method GetStartOfLastSundayUTC(t: int) returns (midnight: int)
    ensures midnight == t - t % WEEK
  {
    var now := t;
    ghost var k := 0;
    while Weekday(now) != 0
      invariant 0 <= k && now == t - k * DAY && now / DAY == t / DAY - k && Weekday(now) == Weekday(t) - k
      decreases Weekday(now)
    {
      DayBefore(now);
      now, k := now - DAY, k + 1;
    }
    midnight := now / DAY * DAY;
    SundayMidnight(t, midnight);
  }

  lemma DayBefore(now: int)
    ensures (now - DAY) / DAY == now / DAY - 1
    ensures Weekday(now) != 0 ==> Weekday(now - DAY) == Weekday(now) - 1
  {
    DivModUnique(now - DAY, DAY, now / DAY - 1, now % DAY);
  }

  lemma SundayMidnight(t: int, midnight: int)
    requires midnight == (t / DAY - t / DAY % 7) * DAY
    ensures midnight == t - t % WEEK
  {
  }

  class Handler {
    var startOfGPSWeek: int
    var startOfBeidouWeek: int
    var startOfGlonassWeek: int
    var timestampFromPreviousGPSMessage: nat
    var timestampFromPreviousBeidouMessage: nat
    var glonassDayFromPreviousMessage: nat

    ghost function GPS(): Week
      reads this
    {
      Week(startOfGPSWeek, timestampFromPreviousGPSMessage)
    }

    ghost function Beidou(): Week
      reads this
    {
      Week(startOfBeidouWeek, timestampFromPreviousBeidouMessage)
    }

    ghost function Glonass(): GlonassWeek
      reads this
    {
      GlonassWeek(startOfGlonassWeek, glonassDayFromPreviousMessage)
    }

    /** New */
    constructor (startTime: int)
      ensures GPS() == Week(WeekStart(startTime, GPS_LEAD), Stamp(startTime, GPS_LEAD))
      ensures Beidou() == Week(WeekStart(startTime, BEIDOU_LEAD), Stamp(startTime, BEIDOU_LEAD))
      ensures Glonass() == GlonassWeek(WeekStart(startTime, GLONASS_LEAD), 0)
    {
      var gpsMidnightLastSunday := GetStartOfLastSundayUTC(startTime + GPS_LEAD);
      var beidouMidnightLastSunday := GetStartOfLastSundayUTC(startTime + BEIDOU_LEAD);
      var glonassMidnightLastSunday := GetStartOfLastSundayUTC(startTime + GLONASS_LEAD);
      startOfGPSWeek := gpsMidnightLastSunday - GPS_LEAD;
      startOfBeidouWeek := beidouMidnightLastSunday - BEIDOU_LEAD;
      startOfGlonassWeek := glonassMidnightLastSunday - GLONASS_LEAD;
      timestampFromPreviousGPSMessage := startTime - (gpsMidnightLastSunday - GPS_LEAD);
      timestampFromPreviousBeidouMessage := startTime - (beidouMidnightLastSunday - BEIDOU_LEAD);
      glonassDayFromPreviousMessage := 0;
    }

    method GetUTCFromGPSTime(timestamp: nat) returns (t: Option<int>)
      modifies this`startOfGPSWeek, this`timestampFromPreviousGPSMessage
      ensures (t, GPS()) == Convert(old(GPS()), timestamp)
    {
      var newStartOfWeek;
      t, newStartOfWeek := GetUTCFromTimestamp(timestamp, timestampFromPreviousGPSMessage, startOfGPSWeek);
      if t == None {
        return;
      }
      startOfGPSWeek := newStartOfWeek;
      timestampFromPreviousGPSMessage := timestamp;
    }

    method GetUTCFromBeidouTime(timestamp: nat) returns (t: Option<int>)
      modifies this`startOfBeidouWeek, this`timestampFromPreviousBeidouMessage
      ensures (t, Beidou()) == Convert(old(Beidou()), timestamp)
    {
      var newStartOfWeek;
      t, newStartOfWeek := GetUTCFromTimestamp(timestamp, timestampFromPreviousBeidouMessage, startOfBeidouWeek);
      if t == None {
        return;
      }
      startOfBeidouWeek := newStartOfWeek;
      timestampFromPreviousBeidouMessage := timestamp;
    }

    method GetUTCFromGlonassTime(timestamp: nat) returns (t: Option<int>)
      modifies this`startOfGlonassWeek, this`glonassDayFromPreviousMessage
      ensures (t, Glonass()) == ConvertGlonass(old(Glonass()), timestamp)
    {
      var parsed := ParseGlonass(timestamp);
      if parsed == None {
        return None;
      }
      var (day, millis) := parsed.value;
      if day != glonassDayFromPreviousMessage {
        if day < glonassDayFromPreviousMessage {
          startOfGlonassWeek := startOfGlonassWeek + WEEK;
        }
      }
      var timeFromTimestamp := startOfGlonassWeek + day * DAY;
      timeFromTimestamp := timeFromTimestamp + millis;
      glonassDayFromPreviousMessage := day;
      t := Some(timeFromTimestamp);
    }
  }

  /** The shared conversion; the week is unchanged if the timestamp is out of range. */
  method GetUTCFromTimestamp(timestamp: nat, timestampFromPreviousMessage: nat, startOfWeek: int)
    returns (t: Option<int>, newStartOfWeek: int)
    ensures t == Convert(Week(startOfWeek, timestampFromPreviousMessage), timestamp).0
    ensures newStartOfWeek == Convert(Week(startOfWeek, timestampFromPreviousMessage), timestamp).1.start
  {
    if timestamp > WEEK - 1 {
      return None, startOfWeek;
    }
    if timestampFromPreviousMessage > timestamp {
      newStartOfWeek := startOfWeek + WEEK;
    } else {
      newStartOfWeek := startOfWeek;
    }
    t := Some(newStartOfWeek + timestamp);
  }

  /**
   From a handler's start: a run of GPS or Beidou timestamps comes back as the
   instants exactly when they do not go back and no gap reaches a week; a run
   of Glonass timestamps, exactly when the first is in the start week, no
   Moscow day precedes the one before it, and none is seven days on.
   */
  lemma HandlerTracks(startTime: int, ts: seq<int>)
    ensures Track(Week(WeekStart(startTime, GPS_LEAD), Stamp(startTime, GPS_LEAD)), Stamps(ts, GPS_LEAD)) == Somes(ts)
            <==> ShortGaps(startTime, ts)
    ensures Track(Week(WeekStart(startTime, BEIDOU_LEAD), Stamp(startTime, BEIDOU_LEAD)), Stamps(ts, BEIDOU_LEAD)) ==
            Somes(ts)
            <==> ShortGaps(startTime, ts)
    ensures TrackGlonass(GlonassWeek(WeekStart(startTime, GLONASS_LEAD), 0), GlonassStamps(ts)) == Somes(ts)
            <==> ShortDayGaps(MoscowDay(WeekStart(startTime, GLONASS_LEAD)), ts)
  {
    NewWeek(startTime, GPS_LEAD);
    NewWeek(startTime, BEIDOU_LEAD);
    NewWeek(startTime, GLONASS_LEAD);
    TrackExact(Week(WeekStart(startTime, GPS_LEAD), Stamp(startTime, GPS_LEAD)), GPS_LEAD, ts);
    TrackExact(Week(WeekStart(startTime, BEIDOU_LEAD), Stamp(startTime, BEIDOU_LEAD)), BEIDOU_LEAD, ts);
    TrackGlonassExact(GlonassWeek(WeekStart(startTime, GLONASS_LEAD), 0), ts);
  }
}
