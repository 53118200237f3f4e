/** The weekly schedule: entries packed into words, and the test whether one covers a moment. */
module Scheduling {
  import opened Arithmetic
  import opened Calendar
  import Rtc

  const MINUTES_PER_DAY := 1440
  const SCHEDULE_COUNT := 10
  const DEFAULT_ENTRY: bv32 := 0xFE5A2580

  // ---- The fields of an entry ----

  function Day(v: bv32): bv32 { (v & 0xFE000000) >> 25 }

  function TimeStart(v: bv32): nat { ((v & 0x01FFC000) >> 14) as int }

  function TimeEnd(v: bv32): nat { ((v & 0x00003FF8) >> 3) as int }

  function Pack(day: bv32, start: bv32, end: bv32, mode: bv32): bv32 {
    (day << 25) | (start << 14) | (end << 3) | mode
  }

  /** Fields that fit come back out of the word unchanged. */
  lemma PackedFields(day: bv32, start: bv32, end: bv32, mode: bv32)
    requires day & !0x7F == 0 && start & !0x7FF == 0 && end & !0x7FF == 0 && mode & !7 == 0
    ensures var v := Pack(day, start, end, mode);
            Day(v) == day && TimeStart(v) == start as int && TimeEnd(v) == end as int
  {
    PackedDay(day, start, end, mode);
    PackedTimes(day, start, end, mode);
    hide Pack;
  }

  lemma PackedDay(day: bv32, start: bv32, end: bv32, mode: bv32)
    requires day & !0x7F == 0 && start & !0x7FF == 0 && end & !0x7FF == 0 && mode & !7 == 0
    ensures (Pack(day, start, end, mode) & 0xFE000000) >> 25 == day
  {}

  lemma PackedTimes(day: bv32, start: bv32, end: bv32, mode: bv32)
    requires day & !0x7F == 0 && start & !0x7FF == 0 && end & !0x7FF == 0 && mode & !7 == 0
    ensures (Pack(day, start, end, mode) & 0x01FFC000) >> 14 == start
    ensures (Pack(day, start, end, mode) & 0x00003FF8) >> 3 == end
  {}

  // ---- Day and minute of a timestamp ----

  /** The subtraction is unsigned and wraps. */
  function SinceMin(t: uint32): uint32 {
    (t - TIMESTAMP_MIN) % 0x1_0000_0000
  }

  function DayIndex(t: uint32): (d: nat)
    ensures d < 7
  {
    DaysBegun(SinceMin(t)) % 7
  }

  /** How many days have begun, where a day begins just after midnight. */
  function DaysBegun(s: nat): nat {
    if s % SECONDS_PER_DAY != 0 then s / SECONDS_PER_DAY + 1 else s / SECONDS_PER_DAY
  }

  function DayBit(d: nat): bv32
    requires d < 7
  {
    0x40 >> d
  }

  function WeekDay(t: uint32): bv32 { DayBit(DayIndex(t)) }

  function Minute(t: uint32): (m: nat)
    ensures m < MINUTES_PER_DAY
  {
    t % SECONDS_PER_DAY / 60
  }

  /** The minute of the day, in seconds, and on the clock of the timestamp's own date. */
  lemma MinuteOfDay(t: uint32)
    ensures 60 * Minute(t) <= t - t / 86400 * 86400 < 60 * Minute(t) + 60
    ensures t >= TIMESTAMP_MIN ==>
              var s := Rtc.Civil(t - TIMESTAMP_MIN); Minute(t) == 60 * s.hour + s.minute
  {
    if t >= TIMESTAMP_MIN {
      Rtc.DayParts(t);
      hide Rtc.Civil, Rtc.Moment;
    }
  }

  /** A day's bit covers the span from just after one midnight up to and including the next. */
  lemma DaySpan(t: uint32, d: nat)
    requires t >= TIMESTAMP_MIN
    ensures DayIndex(t) == d <==>
            exists q: nat :: q % 7 == d && InDay(t - TIMESTAMP_MIN, q)
  {
    var s := t - TIMESTAMP_MIN;
    var q := DaysBegun(s);
    assert InDay(s, q);
    forall p: nat | InDay(s, p)
      ensures p == q
    {}
  }

  predicate InDay(s: nat, q: nat) {
    SECONDS_PER_DAY * (q - 1) < s <= SECONDS_PER_DAY * q
  }

  /** So midnight still belongs to the day that ends there. */
  lemma MidnightIsOld(t: uint32)
    requires t > TIMESTAMP_MIN && (t - TIMESTAMP_MIN) % SECONDS_PER_DAY == 0
    ensures DayIndex(t) == DayIndex(t - 1) && Minute(t) == 0
  {
    var q := (t - TIMESTAMP_MIN) / SECONDS_PER_DAY;
    assert t == (q + 19723) * SECONDS_PER_DAY;
    WholeDays(q);
    WholeDays(q + 19723);
    assert SinceMin(t) == q * SECONDS_PER_DAY && SinceMin(t - 1) == q * SECONDS_PER_DAY - 1;
    hide SinceMin;
  }

  lemma WholeDays(q: nat)
    ensures DaysBegun(q * SECONDS_PER_DAY) == q && q * SECONDS_PER_DAY % SECONDS_PER_DAY == 0
    ensures q > 0 ==> DaysBegun(q * SECONDS_PER_DAY - 1) == q
  {
    if q > 0 {
      assert q * SECONDS_PER_DAY - 1 == (q - 1) * SECONDS_PER_DAY + 86399;
    }
  }

  /** The first day of 2024, a Monday, has bit 5, and the following Sunday bit 6. */
  lemma MondayAndSunday(t: uint32)
    ensures TIMESTAMP_MIN < t <= TIMESTAMP_MIN + SECONDS_PER_DAY ==> WeekDay(t) == 0x20
    ensures TIMESTAMP_MIN + 6 * SECONDS_PER_DAY < t <= TIMESTAMP_MIN + SECONDS_PER_WEEK ==> WeekDay(t) == 0x40
  {
    if TIMESTAMP_MIN < t <= TIMESTAMP_MIN + SECONDS_PER_DAY {
      assert DaysBegun(SinceMin(t)) == 1;
    } else if TIMESTAMP_MIN + 6 * SECONDS_PER_DAY < t <= TIMESTAMP_MIN + SECONDS_PER_WEEK {
      assert DaysBegun(SinceMin(t)) == 7;
    }
  }

  // ---- The test ----

  /** Minute m within the window from start to end, which may span midnight. */
  predicate InWindow(m: nat, start: nat, end: nat) {
    if end < start then !(m >= end && m < start) else m < end && m >= start
  }

  /** With times of day that exist, the window is the arc from start to end around the clock: it is
      empty when they are equal, and never the whole day. */
  lemma WindowIsArc(m: nat, start: nat, end: nat)
    requires m < MINUTES_PER_DAY && start < MINUTES_PER_DAY && end < MINUTES_PER_DAY
    ensures InWindow(m, start, end) <==> (m - start) % MINUTES_PER_DAY < (end - start) % MINUTES_PER_DAY
  {}

  predicate OnDay(entry: bv32, t: uint32) {
    Day(entry) & WeekDay(t) != 0
  }

  predicate Covers(entry: bv32, t: uint32) {
    OnDay(entry, t) && InWindow(Minute(t), TimeStart(entry), TimeEnd(entry))
  }

  predicate Scheduled(schedule: seq<bv32>, t: uint32) {
    exists i :: 0 <= i < |schedule| && Covers(schedule[i], t)
  }

  method SchedulingTest(schedule: seq<bv32>, t: uint32) returns (active: bool)
    requires |schedule| == SCHEDULE_COUNT
    ensures active <==> Scheduled(schedule, t)
  {
    hide OnDay, TimeStart, TimeEnd, Minute;
    for i := 0 to SCHEDULE_COUNT
      invariant forall j :: 0 <= j < i ==> !Covers(schedule[j], t)
    {
      if OnDay(schedule[i], t) {
        var timeStart := TimeStart(schedule[i]);
        var timeEnd := TimeEnd(schedule[i]);
        var time := Minute(t);
        if timeEnd < timeStart {
          if !(time >= timeEnd && time < timeStart) {
            return true;
          }
        } else {
          if time < timeEnd && time >= timeStart {
            return true;
          }
        }
      }
    }
    return false;
  }

  /** The test holds exactly when some entry has the day's bit and its arc contains the minute. */
  lemma ScheduledIff(schedule: seq<bv32>, t: uint32)
    requires forall i :: 0 <= i < |schedule| ==>
               TimeStart(schedule[i]) < MINUTES_PER_DAY && TimeEnd(schedule[i]) < MINUTES_PER_DAY
    ensures Scheduled(schedule, t) <==>
            exists i :: 0 <= i < |schedule| && OnDay(schedule[i], t)
                        && (Minute(t) - TimeStart(schedule[i])) % MINUTES_PER_DAY
                           < (TimeEnd(schedule[i]) - TimeStart(schedule[i])) % MINUTES_PER_DAY
  {
    hide OnDay, TimeStart, TimeEnd, Minute, InWindow;
    forall i | 0 <= i < |schedule|
      ensures InWindow(Minute(t), TimeStart(schedule[i]), TimeEnd(schedule[i])) <==>
              (Minute(t) - TimeStart(schedule[i])) % MINUTES_PER_DAY
              < (TimeEnd(schedule[i]) - TimeStart(schedule[i])) % MINUTES_PER_DAY
    {
      WindowIsArc(Minute(t), TimeStart(schedule[i]), TimeEnd(schedule[i]));
    }
  }

  /** The schedule repeats every week. */
  lemma WeeklyPeriod(schedule: seq<bv32>, t: uint32)
    requires t + SECONDS_PER_WEEK < 0x1_0000_0000
    requires t >= TIMESTAMP_MIN || t + SECONDS_PER_WEEK < TIMESTAMP_MIN
    ensures Scheduled(schedule, t) <==> Scheduled(schedule, t + SECONDS_PER_WEEK)
  {
    SameMomentOfWeek(t);
    hide Day, TimeStart, TimeEnd, DayIndex, Minute, InWindow;
    var u: uint32 := t + SECONDS_PER_WEEK;
    assert forall i :: 0 <= i < |schedule| ==> (Covers(schedule[i], t) <==> Covers(schedule[i], u));
  }

  lemma SevenDaysOn(s: nat)
    ensures (s + SECONDS_PER_WEEK) / SECONDS_PER_DAY == s / SECONDS_PER_DAY + 7
    ensures (s + SECONDS_PER_WEEK) % SECONDS_PER_DAY == s % SECONDS_PER_DAY
  {}

  lemma SinceMinOneWeekOn(t: uint32)
    requires t + SECONDS_PER_WEEK < 0x1_0000_0000
    requires t >= TIMESTAMP_MIN || t + SECONDS_PER_WEEK < TIMESTAMP_MIN
    ensures SinceMin(t + SECONDS_PER_WEEK) == SinceMin(t) + SECONDS_PER_WEEK
  {
    if t >= TIMESTAMP_MIN {
      assert SinceMin(t) == t - TIMESTAMP_MIN;
    } else {
      assert SinceMin(t) == t - TIMESTAMP_MIN + 0x1_0000_0000;
    }
  }

  lemma SameMomentOfWeek(t: uint32)
    requires t + SECONDS_PER_WEEK < 0x1_0000_0000
    requires t >= TIMESTAMP_MIN || t + SECONDS_PER_WEEK < TIMESTAMP_MIN
    ensures DayIndex(t + SECONDS_PER_WEEK) == DayIndex(t) && Minute(t + SECONDS_PER_WEEK) == Minute(t)
  {
    SinceMinOneWeekOn(t);
    SevenDaysOn(SinceMin(t));
    assert DaysBegun(SinceMin(t) + SECONDS_PER_WEEK) == DaysBegun(SinceMin(t)) + 7;
    SevenDaysOn(t);
    hide SinceMin, DaysBegun;
  }

  // ---- Where the week does not repeat ----

  /** Every schedule answers the same a week later. */
  ghost predicate Repeats(t: uint32)
    requires t + SECONDS_PER_WEEK < 0x1_0000_0000
  {
    forall schedule: seq<bv32> | |schedule| == SCHEDULE_COUNT ::
      Scheduled(schedule, t) <==> Scheduled(schedule, t + SECONDS_PER_WEEK)
  }

  /** The unsigned subtraction wraps during the last week before 2024, and 2^32 seconds are no whole
      number of weeks: from there, and from nowhere else, one week on is another day. */
  lemma RepeatsIff(t: uint32)
    requires t + SECONDS_PER_WEEK < 0x1_0000_0000
    ensures Repeats(t) <==> t >= TIMESTAMP_MIN || t + SECONDS_PER_WEEK < TIMESTAMP_MIN
  {
    hide Scheduled;
    if t >= TIMESTAMP_MIN || t + SECONDS_PER_WEEK < TIMESTAMP_MIN {
      forall schedule: seq<bv32> | |schedule| == SCHEDULE_COUNT
        ensures Scheduled(schedule, t) <==> Scheduled(schedule, t + SECONDS_PER_WEEK)
      {
        WeeklyPeriod(schedule, t);
      }
    } else {
      AnotherDay(t);
      var schedule := OnlyOn(t, t + SECONDS_PER_WEEK);
    }
  }

  lemma DaysApart(s: nat)
    ensures (DaysBegun(s + 0x1_0000_0000 - SECONDS_PER_WEEK) - DaysBegun(s)) % 7 in {3, 4}
  {
    var q, r := s / SECONDS_PER_DAY, s % SECONDS_PER_DAY;
    assert s + 0x1_0000_0000 - SECONDS_PER_WEEK == (q + 49703) * SECONDS_PER_DAY + (r + 23296);
  }

  lemma AnotherDay(t: uint32)
    requires t < TIMESTAMP_MIN <= t + SECONDS_PER_WEEK
    ensures DayIndex(t) != DayIndex(t + SECONDS_PER_WEEK)
  {
    var s := t + SECONDS_PER_WEEK - TIMESTAMP_MIN;
    assert SinceMin(t) == s + 0x1_0000_0000 - SECONDS_PER_WEEK;
    assert SinceMin(t + SECONDS_PER_WEEK) == s;
    DaysApart(s);
    hide DaysBegun, SinceMin;
  }

  /** A schedule for the whole of one day of the week. */
  lemma OnlyOn(t: uint32, u: uint32) returns (schedule: seq<bv32>)
    requires DayIndex(t) != DayIndex(u)
    ensures |schedule| == SCHEDULE_COUNT && Scheduled(schedule, t) && !Scheduled(schedule, u)
  {
    var entry := Pack(WeekDay(t), 0, 1440, 0);
    DayFits(DayIndex(t));
    PackedFields(WeekDay(t), 0, 1440, 0);
    DaysDisjoint(DayIndex(t), DayIndex(u));
    hide Pack, Day, TimeStart, TimeEnd, DayIndex, Minute, DayBit;
    schedule := seq(SCHEDULE_COUNT, _ => entry);
    assert Covers(schedule[0], t);
  }

  lemma DayFits(d: nat)
    requires d < 7
    ensures DayBit(d) & !0x7F == 0 && DayBit(d) & DayBit(d) != 0
  {
    DayBitValue(d);
  }

  lemma DaysDisjoint(d: nat, e: nat)
    requires d < 7 && e < 7 && d != e
    ensures DayBit(d) & DayBit(e) == 0
  {
    DayBitValue(d);
    DayBitValue(e);
  }

  lemma DayBitValue(d: nat)
    requires d < 7
    ensures DayBit(d) == [0x40, 0x20, 0x10, 8, 4, 2, 1][d]
  {
    if d < 3 {
      if d == 0 {} else if d == 1 {} else {}
    } else {
      if d == 3 {} else if d == 4 {} else if d == 5 {} else {}
    }
  }

  /** The factory entry covers every day from six in the morning to eight in the evening. */
  lemma DefaultEntry(t: uint32)
    ensures Covers(DEFAULT_ENTRY, t) <==> 6 * 3600 <= t % 86400 < 20 * 3600
  {
    assert Day(DEFAULT_ENTRY) == 0x7F;
    assert TimeStart(DEFAULT_ENTRY) == 360 && TimeEnd(DEFAULT_ENTRY) == 1200;
    EveryDay(DayIndex(t));
  }

  lemma EveryDay(d: nat)
    requires d < 7
    ensures 0x7F & DayBit(d) != 0
  {
    DayBitValue(d);
  }
}
