/** The conversion between Unix seconds and the BCD registers of the clock chip, and the
    resynchronisation that relies on it. */
module Rtc {
  import opened Arithmetic
  import opened Calendar

  type byte = x: int | 0 <= x < 0x100

  const TIMESTAMP_LIMIT := 7268702400
  const INT_MAX := 0x7FFF_FFFF
  const SECONDS_PER_YEAR := 31536000

  /** The calendar registers, in the chip's order. */
  datatype Fields = Fields(
    seconds: byte, minutes: byte, hours: byte, day: byte, date: byte, month: byte, years: byte)

  // ---- Machine arithmetic ----

  /** A 32-bit signed sum wraps around. */
  function Int32(x: int): int {
    (x + 0x8000_0000) % 0x1_0000_0000 - 0x8000_0000
  }

  // ---- BCD ----

  function ToBcd(value: nat): byte {
    ((value / 10) * 16 + value % 10) % 0x100
  }

  /** Only three bits of the tens digit are read. */
  function FromBcd(value: byte): nat {
    10 * ((value / 16) % 8) + value % 16
  }

  lemma BcdDigits(value: nat, tens: nat, units: nat)
    requires value == 10 * tens + units && tens < 10 && units < 10
    ensures ToBcd(value) == 16 * tens + units
    ensures FromBcd(ToBcd(value)) == 10 * (tens % 8) + units
  {
    var b := 16 * tens + units;
    assert value / 10 == tens && value % 10 == units;
    assert b / 16 == tens && b % 16 == units;
  }

  lemma BcdRoundTrip(value: nat)
    requires value < 80
    ensures FromBcd(ToBcd(value)) == value
  {
    BcdDigits(value, value / 10, value % 10);
  }

  // ---- From days to a date ----

  /** The year a day falls in. */
  function YearOf(days: nat, year: nat): (y: nat)
    ensures y >= year
    ensures DaysBeforeYear(y) <= DaysBeforeYear(year) + days < DaysBeforeYear(y + 1)
    decreases days
  {
    if days < YearLength(year) then year else YearOf(days - YearLength(year), year + 1)
  }

  /** The month of the year, counted from 0, that a day of that year falls in. */
  function MonthOf(year: nat, days: nat, m: nat): (n: nat)
    requires m < 12 && DaysBeforeMonth(year, m) + days < YearLength(year)
    ensures m <= n < 12
    ensures DaysBeforeMonth(year, n) <= DaysBeforeMonth(year, m) + days < DaysBeforeMonth(year, n + 1)
    decreases 12 - m
  {
    WholeYear(year);
    if m == 11 || days < MonthLength(year, m) then m else MonthOf(year, days - MonthLength(year, m), m + 1)
  }

  lemma TimeOfDay(t: nat)
    ensures t == t / 86400 * 86400 + t % 86400 / 3600 * 3600 + t % 3600 / 60 * 60 + t % 60
    ensures t % 86400 / 3600 < 24 && t % 3600 / 60 < 60
  {
    HourOfDay(t);
    MinuteOfHour(t);
  }

  lemma HourOfDay(t: nat)
    ensures t % 86400 == t % 86400 / 3600 * 3600 + t % 3600
  {
    WholeHours(t / 86400 * 24, t % 86400);
  }

  lemma MinuteOfHour(t: nat)
    ensures t % 3600 == t % 3600 / 60 * 60 + t % 60
  {
    WholeMinutes(t / 3600 * 60, t % 3600);
  }

  lemma WholeHours(h: nat, rest: nat)
    ensures (h * 3600 + rest) % 3600 == rest % 3600
  {}

  lemma WholeMinutes(m: nat, rest: nat)
    ensures (m * 60 + rest) % 60 == rest % 60
  {}

  /** The stamp of a moment given in seconds since the start of 2024. */
  function Civil(t: nat): (s: Stamp)
    ensures Valid(s) && Seconds(s) == t
  {
    var days := t / SECONDS_PER_DAY;
    var year := YearOf(days, 0);
    var rest := days - DaysBeforeYear(year);
    var month := MonthOf(year, rest, 0);
    TimeOfDay(t);
    Stamp(year, month + 1, rest - DaysBeforeMonth(year, month) + 1,
          t % 86400 / 3600, t % 3600 / 60, t % 60)
  }

  /** The weekday register: 1 on the first midnight, 2 for the rest of that day, up to 8. */
  function WeekdayNumber(t: nat): nat {
    var w := t % SECONDS_PER_WEEK;
    if w % SECONDS_PER_DAY != 0 then w / SECONDS_PER_DAY + 2 else w / SECONDS_PER_DAY + 1
  }

  function ToFields(s: Stamp, day: nat): Fields {
    Fields(ToBcd(s.second), ToBcd(s.minute), ToBcd(s.hour), ToBcd(day), ToBcd(s.date), ToBcd(s.month), ToBcd(s.year))
  }

  /** Timestamps before 2024 count as its first second. */
  function Since2024(timestamp: nat): nat {
    if timestamp < TIMESTAMP_MIN then 0 else timestamp - TIMESTAMP_MIN
  }

  /** What a timestamp is encoded as. */
  function Encode(timestamp: nat): Fields {
    ToFields(Civil(Since2024(timestamp)), WeekdayNumber(Since2024(timestamp)))
  }

  /** The stamp the calendar registers show. */
  function Shown(f: Fields): Stamp {
    Stamp(FromBcd(f.years), FromBcd(f.month), FromBcd(f.date), FromBcd(f.hours), FromBcd(f.minutes), FromBcd(f.seconds))
  }

  // ---- The encoder ----

  /** The year is counted in a byte, so the calendar repeats after 256 years. */
  const CYCLE_DAYS := 93504

  const CYCLE_END := TIMESTAMP_MIN + CYCLE_DAYS * SECONDS_PER_DAY

  /** What the encoder makes of the seconds since 2024: the day count is cut to 32 bits, and the
      years are counted around the cycle. */
  function InCycle(t: nat): nat {
    t / SECONDS_PER_DAY % 0x1_0000_0000 % CYCLE_DAYS * SECONDS_PER_DAY + t % SECONDS_PER_DAY
  }

  /** What any 64-bit timestamp is encoded as. */
  function EncodeAny(timestamp: nat): Fields {
    ToFields(Civil(InCycle(Since2024(timestamp))), WeekdayNumber(Since2024(timestamp)))
  }

  lemma FirstCycle(t: nat)
    requires t < CYCLE_DAYS * SECONDS_PER_DAY
    ensures InCycle(t) == t
  {
    assert t / SECONDS_PER_DAY < CYCLE_DAYS;
  }

  /** The arithmetic loses nothing before the year 2280; every 32-bit timestamp is far below. */
  lemma EncodeAnyIsEncode(timestamp: nat)
    requires timestamp < CYCLE_END
    ensures EncodeAny(timestamp) == Encode(timestamp)
  {
    FirstCycle(Since2024(timestamp));
    hide Civil, ToFields, InCycle;
  }

  lemma BeforeNextYear(year: nat)
    requires year < 256
    ensures DaysBeforeYear(year) + YearLength(year) <= CYCLE_DAYS
  {
    hide DaysBeforeYear;
    DaysBeforeYearClosed(year);
  }

  lemma QuotientZero(a: nat, b: nat)
    requires b > 0
    ensures a / b == 0 <==> a < b
  {}

  /** The first loop of the encoder: whole years are taken off the day count. The byte for the year
      starts again after 255, so its exit at 3000 is never taken. */
  method TakeYears(days: uint32) returns (years: byte, daysLeft: uint32)
    ensures DaysBeforeYear(years) + daysLeft == days % CYCLE_DAYS
    ensures daysLeft < YearLength(years)
  {
    daysLeft, years := days, 0;
    while true
      invariant (DaysBeforeYear(years) + daysLeft) % CYCLE_DAYS == days % CYCLE_DAYS
      decreases daysLeft
    {
      if years > 3000 {
        break;
      }
      ghost var before := daysLeft;
      if years % 4 != 0 {
        if daysLeft / 365 == 0 {
          break;
        }
        daysLeft := daysLeft - 365;
      } else {
        if daysLeft / 366 == 0 {
          break;
        }
        daysLeft := daysLeft - 366;
      }
      NextYear(years, before, daysLeft);
      years := (years + 1) % 0x100;
    }
    BeforeNextYear(years);
  }

  lemma NextYear(years: byte, before: nat, daysLeft: nat)
    requires before == daysLeft + YearLength(years)
    ensures (DaysBeforeYear((years + 1) % 0x100) + daysLeft) % CYCLE_DAYS
         == (DaysBeforeYear(years) + before) % CYCLE_DAYS
  {
    hide DaysBeforeYear;
    YearStep(years);
    if years == 255 {
      LastYearOfCycle(years);
      OneCycle(daysLeft);
    }
  }

  lemma YearStep(year: nat)
    ensures DaysBeforeYear(year + 1) == DaysBeforeYear(year) + YearLength(year)
    ensures DaysBeforeYear(0) == 0
  {}

  lemma LastYearOfCycle(year: nat)
    requires year == 255
    ensures DaysBeforeYear(year) + YearLength(year) == CYCLE_DAYS
  {
    hide DaysBeforeYear;
    DaysBeforeYearClosed(year);
  }

  lemma OneCycle(days: nat)
    ensures (CYCLE_DAYS + days) % CYCLE_DAYS == days % CYCLE_DAYS
  {}

  /** The second loop: whole months of the year are taken off. Months count from 0 here. */
  method TakeMonths(years: byte, days: uint32) returns (month: byte, daysLeft: nat)
    ensures month < 12 && DaysBeforeMonth(years, month) + daysLeft == days
    ensures days < YearLength(years) ==> daysLeft < MonthLength(years, month)
  {
    daysLeft, month := days, 0;
    while true
      invariant month <= 11
      invariant DaysBeforeMonth(years, month) + daysLeft == days
      decreases 11 - month
    {
      var length := MONTH_LENGTHS[month];
      QuotientZero(daysLeft, length);
      if month > 10 {
        WholeYear(years);
        break;
      }
      if years % 4 != 0 {
        if daysLeft / length == 0 {
          break;
        } else {
          daysLeft := daysLeft - length;
        }
      } else {
        if month == 1 {
          if daysLeft / 29 == 0 {
            break;
          } else {
            daysLeft := daysLeft - 29;
          }
        } else {
          if daysLeft / length == 0 {
            break;
          } else {
            daysLeft := daysLeft - length;
          }
        }
      }
      month := month + 1;
    }
  }

  /** A valid date and time of day that add up to the right number of days make the right stamp. */
  lemma StampIsCivil(t: nat, year: nat, m: nat, rest: nat)
    requires m < 12 && DaysBeforeYear(year) + DaysBeforeMonth(year, m) + rest == t / 86400
    requires rest < MonthLength(year, m)
    ensures Civil(t) == Stamp(year, m + 1, rest + 1, t % 86400 / 3600, t % 3600 / 60, t % 60)
  {
    var s := Stamp(year, m + 1, rest + 1, t % 86400 / 3600, t % 3600 / 60, t % 60);
    hide DaysBeforeYear, DaysBeforeMonth, Civil;
    TimeOfDay(t);
    OrderIsTime(s, Civil(t));
  }

  lemma MidnightsAgree(t: nat)
    ensures (t + TIMESTAMP_MIN) % 86400 == t % 86400
  {}

  lemma HoursAgree(t: nat)
    ensures (t + TIMESTAMP_MIN) % 3600 == t % 3600
  {}

  lemma MinutesAgree(t: nat)
    ensures (t + TIMESTAMP_MIN) % 60 == t % 60
  {}

  lemma MidnightIff(t: nat)
    ensures t % 86400 == 0 <==> t % 86400 / 3600 == 0 && t % 3600 / 60 == 0 && t % 60 == 0
  {
    TimeOfDay(t);
  }

  /** The time of day of a timestamp is that of the seconds since 2024. */
  lemma TimeOfDayAgrees(t: nat)
    ensures (t + TIMESTAMP_MIN) % 60 == t % 60
    ensures (t + TIMESTAMP_MIN) % 3600 / 60 == t % 3600 / 60
    ensures (t + TIMESTAMP_MIN) % 86400 / 3600 == t % 86400 / 3600
  {
    MidnightsAgree(t);
    HoursAgree(t);
    MinutesAgree(t);
  }

  lemma InCycleParts(t: nat, days: nat)
    requires days == t / 86400 % 0x1_0000_0000 % CYCLE_DAYS
    ensures InCycle(t) / 86400 == days
    ensures InCycle(t) % 86400 == t % 86400
    ensures InCycle(t) % 3600 == t % 3600
    ensures InCycle(t) % 60 == t % 60
  {
    var rest := t % 86400;
    assert InCycle(t) == days * 86400 + rest;
    hide InCycle;
    SameHour(t / 86400, rest);
    SameHour(days, rest);
  }

  lemma SameHour(days: nat, rest: nat)
    ensures (days * 86400 + rest) % 3600 == rest % 3600
    ensures (days * 86400 + rest) % 60 == rest % 60
  {
    WholeHours(days * 24, rest);
    WholeMinutes(days * 1440, rest);
  }

  lemma EncodeOf(t: nat, year: nat, m: nat, rest: nat)
    requires m < 12 && rest < MonthLength(year, m)
    requires DaysBeforeYear(year) + DaysBeforeMonth(year, m) + rest == t / 86400 % 0x1_0000_0000 % CYCLE_DAYS
    ensures EncodeAny(t + TIMESTAMP_MIN)
         == Fields(ToBcd(t % 60), ToBcd(t % 3600 / 60), ToBcd(t % 86400 / 3600),
                   ToBcd(WeekdayNumber(t)), ToBcd(rest + 1), ToBcd(m + 1), ToBcd(year))
  {
    hide DaysBeforeYear, DaysBeforeMonth, Civil, ToBcd, WeekdayNumber, InCycle;
    InCycleParts(t, t / 86400 % 0x1_0000_0000 % CYCLE_DAYS);
    StampIsCivil(InCycle(t), year, m, rest);
  }

  method ConvertTimestampToTime(timestamp: uint64) returns (time: Fields)
    ensures time == EncodeAny(timestamp)
    ensures timestamp < CYCLE_END ==> time == Encode(timestamp)
  {
    hide DaysBeforeYear, DaysBeforeMonth, MonthLength, YearLength, Encode, EncodeAny, ToBcd;
    var ts: nat := timestamp;
    if ts < TIMESTAMP_MIN {
      ts := TIMESTAMP_MIN;
      EncodeBeforeMin(timestamp);
    }
    TimeOfDayAgrees(ts - TIMESTAMP_MIN);
    MidnightIff(ts - TIMESTAMP_MIN);
    var seconds, minutes, hours := ts % 60, ts % 3600 / 60, ts % 86400 / 3600;
    ts := ts - TIMESTAMP_MIN;
    assert ts % 86400 == 0 <==> hours == 0 && minutes == 0 && seconds == 0;
    var days: uint32 := ts / 86400 % 0x1_0000_0000;
    var years, daysLeft := TakeYears(days);
    var month, rest := TakeMonths(years, daysLeft);
    EncodeOf(ts, years, month, rest);
    MonthAtMost31(years, month);
    assert rest < 31;
    month := month + 1;
    var date: nat := (if ts % 86400 != 0 then rest + 1 else rest) % 0x100;
    if hours == 0 && minutes == 0 && seconds == 0 {
      date := (date + 1) % 0x100;
    }
    assert date == rest + 1;
    var weekDay := ts % SECONDS_PER_WEEK;
    weekDay := if weekDay % 86400 != 0 then weekDay / 86400 + 2 else weekDay / 86400 + 1;
    assert weekDay == WeekdayNumber(ts);
    time := Fields(ToBcd(seconds), ToBcd(minutes), ToBcd(hours), ToBcd(weekDay),
                   ToBcd(date), ToBcd(month), ToBcd(years));
    if timestamp < CYCLE_END {
      EncodeAnyIsEncode(timestamp);
    }
  }

  lemma EncodeBeforeMin(timestamp: nat)
    requires timestamp < TIMESTAMP_MIN
    ensures Encode(timestamp) == Encode(TIMESTAMP_MIN)
    ensures EncodeAny(timestamp) == EncodeAny(TIMESTAMP_MIN)
  {
    hide Civil, InCycle;
  }

  // ---- The decoder ----

  /** The decoder indexes the table of month lengths with the months before the decoded one, so the
      source is defined only for these month registers. */
  predicate Decodable(f: Fields) {
    1 <= FromBcd(f.month) <= 13
  }

  /** The sum the decoder forms, before it is squeezed into 32 bits. The day register holds one more
      than the days before it, in an unsigned byte. */
  function Total(f: Fields): nat
    requires Decodable(f)
  {
    var s := Shown(f);
    TIMESTAMP_MIN
      + (DaysBeforeYear(s.year) + DaysBeforeMonth(s.year, s.month - 1) + (s.date + 255) % 0x100) * SECONDS_PER_DAY
      + s.hour * 3600 + s.minute * 60 + s.second
  }

  function Decode(f: Fields): uint64
    requires Decodable(f)
  {
    Unsigned64(Int32(Total(f)))
  }

  lemma Int32Absorbs(a: int, b: int)
    ensures Int32(a + Int32(b)) == Int32(a + b)
  {
    var k := (b + 0x8000_0000) / 0x1_0000_0000;
    assert b - Int32(b) == k * 0x1_0000_0000;
    WrapShift(a + b + 0x8000_0000, k);
  }

  lemma WrapShift(x: int, k: int)
    ensures (x - k * 0x1_0000_0000) % 0x1_0000_0000 == x % 0x1_0000_0000
  {}

  lemma YearsInSeconds(year: nat)
    ensures year * SECONDS_PER_YEAR + year / 4 * SECONDS_PER_DAY + (if year % 4 != 0 then SECONDS_PER_DAY else 0)
         == DaysBeforeYear(year) * SECONDS_PER_DAY
  {
    DaysBeforeYearClosed(year);
  }

  /** The days of the months before month m, in seconds. */
  method SecondsBeforeMonth(year: nat, m: nat) returns (sum: nat)
    requires m <= 12
    ensures sum == DaysBeforeMonth(year, m) * SECONDS_PER_DAY
  {
    sum := 0;
    for i := 0 to m
      invariant sum == DaysBeforeMonth(year, i) * SECONDS_PER_DAY
    {
      if year % 4 != 0 {
        sum := sum + MONTH_LENGTHS[i] * SECONDS_PER_DAY;
      } else {
        if i == 1 {
          sum := sum + 29 * SECONDS_PER_DAY;
        } else {
          sum := sum + MONTH_LENGTHS[i] * SECONDS_PER_DAY;
        }
      }
    }
  }

  method ConvertTimeToTimestamp(time: Fields) returns (timestamp: uint64)
    requires Decodable(time)
    ensures timestamp == Decode(time)
  {
    hide DaysBeforeYear, DaysBeforeMonth, FromBcd, Int32, Unsigned64;
    var sec, min, hr := FromBcd(time.seconds), FromBcd(time.minutes), FromBcd(time.hours);
    var day := (FromBcd(time.date) + 255) % 0x100;
    var month := FromBcd(time.month) - 1;
    var year := FromBcd(time.years);
    var secMonth := SecondsBeforeMonth(year, month);
    var leapDays := year / 4 * SECONDS_PER_DAY;
    leapDays := leapDays + (if year % 4 != 0 then SECONDS_PER_DAY else 0);
    YearsInSeconds(year);
    var sum := year * SECONDS_PER_YEAR + secMonth + day * SECONDS_PER_DAY
               + hr * 3600 + min * 60 + sec + leapDays;
    Int32Absorbs(TIMESTAMP_MIN, sum);
    assert TIMESTAMP_MIN + sum == Total(time);
    timestamp := Unsigned64(Int32(TIMESTAMP_MIN + Int32(sum)));
  }

  // ---- The round trip ----

  lemma CivilYear(t: nat)
    requires t < 0x1_0000_0000 - TIMESTAMP_MIN
    ensures Civil(t).year <= 82
    ensures Civil(t).year < 80 <==> t < YEAR_80
  {
    var s := Civil(t);
    hide DaysBeforeYear, DaysBeforeMonth, Civil;
    DayBeforeNextYear(s);
    DaysBeforeYearClosed(s.year);
    DaysBeforeYearClosed(s.year + 1);
    assert DaysBeforeYear(s.year) <= DayNumber(s) < DaysBeforeYear(s.year + 1);
    assert DayNumber(s) == t / SECONDS_PER_DAY by { DayOfSeconds(s); }
  }

  lemma DayOfSeconds(s: Stamp)
    requires Valid(s)
    ensures DayNumber(s) == Seconds(s) / SECONDS_PER_DAY
  {
    hide DayNumber;
  }

  /** Seconds from the start of 2024 to the start of 2104, where the tens digit of the year needs
      its fourth bit. */
  const YEAR_80 := 2524608000

  lemma DayBeforeNextYear(s: Stamp)
    requires Valid(s)
    ensures DayNumber(s) < DaysBeforeYear(s.year + 1)
  {
    WholeYear(s.year);
    if s.month < 12 {
      MonthsGrow(s.year, s.month - 1, 12);
    }
  }

  lemma FieldsShow(s: Stamp, day: nat)
    requires Valid(s) && s.year < 80
    ensures Shown(ToFields(s, day)) == s
  {
    MonthAtMost31(s.year, s.month - 1);
    hide ToBcd, FromBcd, MonthLength;
    BcdRoundTrip(s.second);
    BcdRoundTrip(s.minute);
    BcdRoundTrip(s.hour);
    BcdRoundTrip(s.date);
    BcdRoundTrip(s.month);
    BcdRoundTrip(s.year);
  }

  lemma ShownDecodes(f: Fields)
    requires Valid(Shown(f))
    ensures Decodable(f) && Total(f) == TIMESTAMP_MIN + Seconds(Shown(f))
  {
    var s := Shown(f);
    hide FromBcd, MonthLength, DaysBeforeYear, DaysBeforeMonth;
    MonthAtMost31(s.year, s.month - 1);
    UnsignedDay(s.date);
    assert s.month == FromBcd(f.month);
  }

  lemma UnsignedDay(date: nat)
    requires 1 <= date <= 31
    ensures (date + 255) % 0x100 == date - 1
  {}

  lemma ToUnsignedInRange(x: int)
    requires 0 <= x <= INT_MAX
    ensures Unsigned64(Int32(x)) == x
  {}

  lemma EncodeDecodable(t: nat)
    ensures Decodable(Encode(t))
  {
    var s := Civil(Since2024(t));
    hide Civil, ToBcd, FromBcd;
    BcdRoundTrip(s.month);
  }

  /** The registers show the date that was encoded. */
  lemma ShownIsCivil(t: nat)
    requires t - TIMESTAMP_MIN < YEAR_80
    ensures Shown(Encode(t)) == Civil(Since2024(t))
  {
    var s := Civil(Since2024(t));
    CivilYear(Since2024(t));
    FieldsShow(s, WeekdayNumber(Since2024(t)));
  }

  lemma EncodeTotal(t: nat)
    requires TIMESTAMP_MIN <= t && t - TIMESTAMP_MIN < YEAR_80
    ensures Decodable(Encode(t)) && Total(Encode(t)) == t
  {
    hide Encode, Shown, Total, Decodable;
    ShownIsCivil(t);
    ShownDecodes(Encode(t));
  }

  /** Encoding a timestamp and decoding the registers gives the timestamp back. */
  lemma RoundTrip(t: nat)
    requires TIMESTAMP_MIN <= t <= INT_MAX
    ensures Decodable(Encode(t)) && Decode(Encode(t)) == t
  {
    hide Encode, Total, Decodable, Int32, Unsigned64;
    EncodeTotal(t);
    ToUnsignedInRange(t);
  }

  /** On 32-bit timestamps the round trip holds on that range and nowhere else. */
  lemma RoundTripExactly(t: uint32)
    ensures Decodable(Encode(t))
    ensures Decode(Encode(t)) == t <==> TIMESTAMP_MIN <= t <= INT_MAX
  {
    hide Encode, Decode, Decodable;
    EncodeDecodable(t);
    if t < TIMESTAMP_MIN {
      EncodeBeforeMin(t);
      RoundTrip(TIMESTAMP_MIN);
    } else if t <= INT_MAX {
      RoundTrip(t);
    } else {
      DecodeIsSigned(Encode(t));
    }
  }

  /** The decoder's result is a 32-bit int, read as an unsigned 64-bit number. */
  lemma DecodeIsSigned(f: Fields)
    requires Decodable(f)
    ensures Decode(f) <= INT_MAX || Decode(f) >= 0x1_0000_0000_0000_0000 - 0x8000_0000
  {
    hide Total;
  }

  /** No partial sum of the decoder leaves 32 bits on that range: its terms, in the order the code
      adds them, are not negative and together stay below the limit. */
  lemma PartialSumsFit(t: nat)
    requires TIMESTAMP_MIN <= t <= INT_MAX
    ensures var s := Shown(Encode(t));
            && 1 <= s.month <= 12 && 1 <= s.date <= 31
            && s.year * SECONDS_PER_YEAR + DaysBeforeMonth(s.year, s.month - 1) * SECONDS_PER_DAY
                 + (s.date - 1) * SECONDS_PER_DAY + s.hour * 3600 + s.minute * 60 + s.second
                 + s.year / 4 * SECONDS_PER_DAY + (if s.year % 4 != 0 then SECONDS_PER_DAY else 0)
               == t - TIMESTAMP_MIN
  {
    var s := Civil(Since2024(t));
    MonthAtMost31(s.year, s.month - 1);
    hide Civil, Encode, Shown, MonthLength, DaysBeforeYear, DaysBeforeMonth;
    ShownIsCivil(t);
    YearsInSeconds(s.year);
  }

  // ---- The date that is encoded ----

  /** The registers always show a date that exists, one second on they show its carry successor,
      and their order, field by field, is the order of the timestamps. */
  lemma RegistersShowTime(t: nat, u: nat)
    requires TIMESTAMP_MIN <= t <= INT_MAX && TIMESTAMP_MIN <= u <= INT_MAX
    ensures Valid(Shown(Encode(t))) && Valid(Shown(Encode(u)))
    ensures u == t + 1 <==> Shown(Encode(u)) == Next(Shown(Encode(t)))
    ensures t < u <==> Before(Shown(Encode(t)), Shown(Encode(u)))
  {
    hide Civil, Encode, Shown, Seconds, Next, Valid;
    ShownIsCivil(t);
    ShownIsCivil(u);
    var a, b := Civil(t - TIMESTAMP_MIN), Civil(u - TIMESTAMP_MIN);
    OrderIsTime(a, b);
    NextIsOneSecondLater(a);
    OrderIsTime(b, Next(a));
  }

  // ---- The chip, and resynchronisation ----

  /** The fields as the source stores them in the chip: reserved and flag bits cleared. */
  function Masked(f: Fields): Fields {
    f.(seconds := f.seconds % 128, minutes := f.minutes % 128, day := f.day % 8,
       date := f.date % 64, month := f.month % 32)
  }

  function Registers(f: Fields): seq<byte> {
    [f.seconds, f.minutes, f.hours, f.day, f.date, f.month, f.years, 0, 0, 0]
  }

  /** The buffer after a bus read that delivered only the first n registers. */
  function Received(own: Fields, chip: seq<byte>, n: nat): Fields
    requires |chip| == 10
  {
    Fields(if n > 0 then chip[0] else own.seconds, if n > 1 then chip[1] else own.minutes,
           if n > 2 then chip[2] else own.hours, if n > 3 then chip[3] else own.day,
           if n > 4 then chip[4] else own.date, if n > 5 then chip[5] else own.month,
           if n > 6 then chip[6] else own.years)
  }

  /** The oscillator-stopped flag, or a moment outside the accepted range. */
  predicate Faulty(f: Fields)
    requires Decodable(f)
  {
    f.minutes >= 128 || Decode(f) < TIMESTAMP_MIN || Decode(f) > TIMESTAMP_LIMIT
  }

  function Resynchronized(own: uint32, chip: seq<byte>, delivered: nat): uint32
    requires |chip| == 10 && Decodable(Received(Encode(own), chip, delivered))
  {
    Outcome(Received(Encode(own), chip, delivered))
  }

  class ClockService {
    var timestamp: uint32
    var chip: seq<byte>

    constructor (timestamp: uint32, chip: seq<byte>)
      requires |chip| == 10
      ensures this.timestamp == timestamp && this.chip == chip
    {
      this.timestamp, this.chip := timestamp, chip;
    }

    method SetValue(ref: uint32)
      modifies this`chip
      ensures chip == Registers(Masked(Encode(ref)))
    {
      hide Encode;
      var time := ConvertTimestampToTime(ref);
      time := time.(seconds := time.seconds % 128);
      time := time.(minutes := time.minutes % 128);
      time := time.(day := time.day % 8);
      time := time.(date := time.date % 64);
      time := time.(month := time.month % 32);
      chip := [time.seconds, time.minutes, time.hours, time.day, time.date, time.month, time.years, 0, 0, 0];
    }

    /** delivered is the number of registers the bus read brings in before it stops. */
    method Resynchronize(delivered: nat)
      requires |chip| == 10 && Decodable(Received(Encode(timestamp), chip, delivered))
      modifies this
      ensures timestamp == Resynchronized(old(timestamp), old(chip), delivered)
      ensures chip == if Faulty(Received(Encode(old(timestamp)), old(chip), delivered))
                      then Registers(Masked(Encode(TIMESTAMP_MIN))) else old(chip)
    {
      hide Encode, EncodeAny, Decode, Masked, Registers;
      var time := ConvertTimestampToTime(timestamp);
      time := Received(time, chip, delivered);
      var ts := ConvertTimeToTimestamp(time);
      if time.minutes >= 128 || ts < TIMESTAMP_MIN || ts > TIMESTAMP_LIMIT {
        timestamp := TIMESTAMP_MIN;
        time := ConvertTimestampToTime(TIMESTAMP_MIN);
        SetValue(TIMESTAMP_MIN);
        RoundTrip(TIMESTAMP_MIN);
      }
      ts := ConvertTimeToTimestamp(time);
      timestamp := ts % 0x1_0000_0000;
    }
  }

  lemma ToBcdSmall(value: nat, tens: nat)
    requires value < 10 * tens + 10 && tens < 8
    ensures ToBcd(value) < 16 * tens + 16
  {
    hide ToBcd;
    BcdDigits(value, value / 10, value % 10);
  }

  lemma FieldsSmall(s: Stamp, day: nat)
    requires Valid(s)
    ensures var f := ToFields(s, day); f.seconds < 96 && f.minutes < 96 && f.date < 64 && f.month < 32
  {
    MonthAtMost31(s.year, s.month - 1);
    hide ToBcd, MonthLength;
    ToBcdSmall(s.second, 5);
    ToBcdSmall(s.minute, 5);
    ToBcdSmall(s.date, 3);
    ToBcdSmall(s.month, 1);
  }

  lemma MaskLosesNothing(f: Fields)
    requires f.seconds < 128 && f.minutes < 128 && f.date < 64 && f.month < 32
    ensures Masked(f) == f.(day := f.day % 8)
  {}

  lemma DecodeIgnoresWeekday(f: Fields, g: Fields)
    requires Decodable(f) && g == f.(day := g.day)
    ensures Decodable(g) && Decode(g) == Decode(f)
  {
    hide FromBcd, Int32, Unsigned64;
    assert Shown(g) == Shown(f);
  }

  lemma EncodeMasked(t: nat)
    ensures Masked(Encode(t)) == Encode(t).(day := Encode(t).day % 8)
    ensures Encode(t).minutes < 128
  {
    hide Civil, ToFields, Masked;
    FieldsSmall(Civil(Since2024(t)), WeekdayNumber(Since2024(t)));
    MaskLosesNothing(Encode(t));
  }

  /** What resynchronisation makes of its own encoding of t: the timestamps that come back are
      exactly the supported ones; from 2038 on the chip looks faulty, and from 2104 on the lost
      bit of the year takes 80 years off. */
  function Recovered(t: uint32): uint32 {
    if t < TIMESTAMP_MIN then TIMESTAMP_MIN
    else if t <= INT_MAX then t
    else if t - TIMESTAMP_MIN < YEAR_80 then TIMESTAMP_MIN
    else t - YEAR_80
  }

  function Outcome(f: Fields): uint32
    requires Decodable(f)
  {
    if Faulty(f) then TIMESTAMP_MIN else Decode(f) % 0x1_0000_0000
  }

  lemma GoodOutcome(f: Fields, t: nat)
    requires Decodable(f) && f.minutes < 128 && Decode(f) == t && TIMESTAMP_MIN <= t <= INT_MAX
    ensures Outcome(f) == t
  {
    hide Decode;
  }

  lemma RecoveredLate(t: uint32)
    requires t > INT_MAX
    ensures Decodable(Encode(t)) && Outcome(Encode(t)) == Recovered(t)
  {
    EncodeDecodable(t);
    hide Encode, Decodable, Int32, Unsigned64;
    EncodeMasked(t);
    hide Total;
    if t - TIMESTAMP_MIN < YEAR_80 {
      EncodeTotal(t);
      LateIsHuge(t);
    } else {
      EightyYearsLost(t);
      ToUnsignedInRange(t - YEAR_80);
      GoodOutcome(Encode(t), t - YEAR_80);
    }
  }

  /** From 2104 on the decoder reads a year eighty years too early. */
  lemma EightyYearsLost(t: uint32)
    requires t - TIMESTAMP_MIN >= YEAR_80
    ensures Decodable(Encode(t)) && Total(Encode(t)) == t - YEAR_80
  {
    var s := Civil(Since2024(t));
    CivilYear(Since2024(t));
    var early := s.(year := s.year - 80);
    LateYear(s.year);
    EightyYears(s, early);
    FieldsShow(early, WeekdayNumber(Since2024(t)));
    assert Shown(Encode(t)) == early by {
      hide FromBcd, ToBcd, Civil;
    }
    ShownDecodes(Encode(t));
  }

  lemma LateYear(year: nat)
    requires 80 <= year <= 82
    ensures FromBcd(ToBcd(year)) == year - 80 == FromBcd(ToBcd(year - 80))
  {
    hide ToBcd, FromBcd;
    BcdDigits(year, 8, year - 80);
    BcdDigits(year - 80, 0, year - 80);
  }

  lemma LateIsHuge(t: nat)
    requires INT_MAX < t < 0x1_0000_0000
    ensures Unsigned64(Int32(t)) > TIMESTAMP_LIMIT
  {}

  lemma EightyYears(s: Stamp, early: Stamp)
    requires Valid(s) && s.year >= 80 && early == s.(year := s.year - 80)
    ensures Valid(early) && Seconds(early) + YEAR_80 == Seconds(s)
  {
    SameMonths(s.year, early.year, s.month - 1);
    hide DaysBeforeYear, DaysBeforeMonth;
    DaysInEightyYears(early.year);
    assert DayNumber(s) == DayNumber(early) + 29220;
    hide DayNumber;
  }

  lemma DaysInEightyYears(year: nat)
    ensures DaysBeforeYear(year + 80) == DaysBeforeYear(year) + 29220
  {
    DaysBeforeYearClosed(year);
    DaysBeforeYearClosed(year + 80);
  }

  lemma {:induction false} SameMonths(y: nat, z: nat, m: nat)
    requires Leap(y) == Leap(z) && m <= 12
    ensures DaysBeforeMonth(y, m) == DaysBeforeMonth(z, m)
    decreases m
  {
    if m > 0 {
      SameMonths(y, z, m - 1);
    }
  }

  lemma EncodeOutcome(t: uint32)
    ensures Decodable(Encode(t)) && Outcome(Encode(t)) == Recovered(t)
  {
    EncodeMasked(t);
    EncodeDecodable(t);
    hide Encode, Decode, Decodable, Masked, Outcome;
    if t < TIMESTAMP_MIN {
      EncodeBeforeMin(t);
      RoundTrip(TIMESTAMP_MIN);
      GoodOutcome(Encode(t), TIMESTAMP_MIN);
    } else if t <= INT_MAX {
      RoundTrip(t);
      GoodOutcome(Encode(t), t);
    } else {
      RecoveredLate(t);
    }
  }

  lemma WeekdayIrrelevant(f: Fields, g: Fields)
    requires Decodable(f) && g == f.(day := g.day)
    ensures Decodable(g) && Outcome(g) == Outcome(f)
  {
    DecodeIgnoresWeekday(f, g);
    hide Decode;
  }

  /** Setting the chip to t and reading it back recovers t, whatever the clock showed before. */
  lemma SetThenResynchronize(own: uint32, t: uint32)
    ensures var chip := Registers(Masked(Encode(t)));
            && Decodable(Received(Encode(own), chip, 10))
            && Resynchronized(own, chip, 10) == Recovered(t)
  {
    hide Encode, Masked, Outcome, Decodable, Recovered;
    EncodeMasked(t);
    EncodeOutcome(t);
    var f := Masked(Encode(t));
    WeekdayIrrelevant(Encode(t), f);
    assert Received(Encode(own), Registers(f), 10) == f;
  }

  // ---- A running chip ----

  /** The chip's own second: the carry of its calendar, and its weekday from 1 to 7. */
  function Carried(f: Fields): Fields {
    if Valid(Shown(f)) then ToFields(Next(Shown(f)), FromBcd(f.day) % 7 + 1) else f
  }

  function AfterSeconds(f: Fields, k: nat): Fields {
    if k == 0 then f else Carried(AfterSeconds(f, k - 1))
  }

  lemma MaskedShown(t: nat)
    requires TIMESTAMP_MIN <= t <= INT_MAX
    ensures var f := Masked(Encode(t)); Shown(f) == Civil(t - TIMESTAMP_MIN) && f.minutes < 128
  {
    hide Civil, Encode, ToBcd, FromBcd, Masked;
    EncodeMasked(t);
    ShownIsCivil(t);
    assert Shown(Masked(Encode(t))) == Shown(Encode(t));
  }

  lemma CarriedShows(f: Fields, t: nat)
    requires TIMESTAMP_MIN <= t < INT_MAX && Shown(f) == Civil(t - TIMESTAMP_MIN)
    ensures Shown(Carried(f)) == Civil(t + 1 - TIMESTAMP_MIN) && Carried(f).minutes < 128
  {
    hide Civil, ToBcd, FromBcd, ToFields, Shown, Seconds, Next;
    var s := Shown(f);
    NextIsOneSecondLater(s);
    OrderIsTime(Next(s), Civil(t + 1 - TIMESTAMP_MIN));
    CivilYear(t + 1 - TIMESTAMP_MIN);
    FieldsShow(Next(s), FromBcd(f.day) % 7 + 1);
    FieldsSmall(Next(s), FromBcd(f.day) % 7 + 1);
  }

  /** k seconds after it was set to t, the chip shows t + k. */
  lemma {:induction false} RunningChipShows(t: nat, k: nat)
    requires TIMESTAMP_MIN <= t && t + k <= INT_MAX
    ensures var f := AfterSeconds(Masked(Encode(t)), k);
            Shown(f) == Civil(t + k - TIMESTAMP_MIN) && f.minutes < 128
    decreases k
  {
    hide Civil, Encode, Masked, Shown, Carried;
    if k == 0 {
      MaskedShown(t);
    } else {
      RunningChipShows(t, k - 1);
      CarriedShows(AfterSeconds(Masked(Encode(t)), k - 1), t + k - 1);
    }
  }

  /** Read back k seconds after it was set to t, a running chip sets the clock to t + k, whatever the
      clock showed before. */
  lemma RunningChipResynchronizes(own: uint32, t: uint32, k: nat)
    requires TIMESTAMP_MIN <= t && t + k <= INT_MAX
    ensures var chip := Registers(AfterSeconds(Masked(Encode(t)), k));
            && Decodable(Received(Encode(own), chip, 10))
            && Resynchronized(own, chip, 10) == t + k
  {
    hide Encode, Masked, AfterSeconds, Outcome, Decodable, Shown, Civil, Received, Registers;
    var f := AfterSeconds(Masked(Encode(t)), k);
    RunningChipShows(t, k);
    CivilOutcome(f, t + k);
    ReadInFull(Encode(own), f);
  }

  lemma ReadInFull(own: Fields, f: Fields)
    ensures |Registers(f)| == 10 && Received(own, Registers(f), 10) == f
  {}

  lemma CivilOutcome(f: Fields, t: nat)
    requires TIMESTAMP_MIN <= t <= INT_MAX && Shown(f) == Civil(t - TIMESTAMP_MIN) && f.minutes < 128
    ensures Decodable(f) && Outcome(f) == t
  {
    hide Shown, Civil, Total, Decodable, Int32, Unsigned64, Seconds;
    ShownDecodes(f);
    assert Total(f) == t;
    ToUnsignedInRange(t);
    GoodOutcome(f, t);
  }

  /** A bus read that delivers nothing leaves every supported timestamp alone. */
  lemma SilentBusKeepsTime(t: uint32, chip: seq<byte>)
    requires |chip| == 10
    ensures Decodable(Received(Encode(t), chip, 0))
    ensures Resynchronized(t, chip, 0) == Recovered(t)
  {
    hide Encode, Outcome, Decodable, Recovered;
    EncodeOutcome(t);
    assert Received(Encode(t), chip, 0) == Encode(t);
  }

  /** A timestamp survives either way exactly when it is a supported one. */
  lemma RecoveredIffSupported(t: uint32)
    ensures Recovered(t) == t <==> TIMESTAMP_MIN <= t <= INT_MAX
    ensures TIMESTAMP_MIN <= Recovered(t) <= INT_MAX
  {}

  // ---- Whatever the chip holds ----

  /** The chip's time is taken exactly when its oscillator flag is clear and its registers add up, in
      32 bits, to a supported timestamp. Every other content sets the clock to the start of 2024. */
  lemma OutcomeExactly(f: Fields)
    requires Decodable(f)
    ensures var x := Total(f) % 0x1_0000_0000;
            Outcome(f) == if f.minutes < 128 && TIMESTAMP_MIN <= x <= INT_MAX then x else TIMESTAMP_MIN
  {
    hide Total, Int32, Unsigned64;
    SignedTotal(Total(f));
  }

  /** A sum in 32 bits, read as an unsigned 64-bit number: itself, or beyond every timestamp. */
  lemma SignedTotal(n: nat)
    ensures var x := n % 0x1_0000_0000;
            if x <= INT_MAX then Unsigned64(Int32(n)) == x && x % 0x1_0000_0000 == x
            else Unsigned64(Int32(n)) > TIMESTAMP_LIMIT
  {
    var x := n % 0x1_0000_0000;
    assert n == n / 0x1_0000_0000 * 0x1_0000_0000 + x;
    WrapShift(n + 0x8000_0000, n / 0x1_0000_0000);
    assert Int32(n) == Int32(x);
  }

  /** In particular a chip that has lost power, and says so in the flag it delivers with the minutes,
      is not believed, whatever else it holds. */
  lemma StoppedChipNotBelieved(own: uint32, chip: seq<byte>, delivered: nat)
    requires |chip| == 10 && Decodable(Received(Encode(own), chip, delivered))
    requires delivered >= 2 && chip[1] >= 128
    ensures Resynchronized(own, chip, delivered) == TIMESTAMP_MIN
  {
    hide Encode, Decodable, Total, Outcome;
    OutcomeExactly(Received(Encode(own), chip, delivered));
  }

  // ---- Reads that stop early ----

  /** The moment made of the first n registers of one moment and the rest of another. The fourth
      register is the weekday. */
  function PartlyRead(own: nat, chip: nat, n: nat): nat
    requires own >= TIMESTAMP_MIN && chip >= TIMESTAMP_MIN
  {
    var a, b := Civil(own - TIMESTAMP_MIN), Civil(chip - TIMESTAMP_MIN);
    if n == 0 then own
    else if n == 1 then own - own % 60 + chip % 60
    else if n == 2 then own - own % 3600 + chip % 3600
    else if n <= 4 then own - own % 86400 + chip % 86400
    else if n >= 7 then chip
    else
      Moment(a.year, if n == 5 then a.month else b.month, b.date, chip % 86400)
  }

  /** The timestamp of a day of the year and a time of day, whether or not the month has that day. */
  function Moment(year: nat, month: nat, date: nat, time: nat): nat
    requires 1 <= month <= 12 && date >= 1
  {
    TIMESTAMP_MIN + (DaysBeforeYear(year) + DaysBeforeMonth(year, month - 1) + date - 1) * 86400 + time
  }

  lemma CivilParts(u: nat)
    ensures var s := Civil(u);
            && u % 60 == s.second && u % 3600 == s.minute * 60 + s.second
            && u % 86400 == s.hour * 3600 + s.minute * 60 + s.second
            && u + TIMESTAMP_MIN == Moment(s.year, s.month, s.date, u % 86400)
  {
    CivilClock(u);
    hide Civil, Moment;
    TimeParts(u);
  }

  lemma CivilClock(u: nat)
    ensures var s := Civil(u);
            && s.second == u % 60 && s.minute == u % 3600 / 60 && s.hour == u % 86400 / 3600
            && Moment(s.year, s.month, s.date, u % 86400) == TIMESTAMP_MIN + u / 86400 * 86400 + u % 86400
  {
    hide DaysBeforeYear, DaysBeforeMonth;
    DayOfSeconds(Civil(u));
  }

  lemma TimeParts(u: nat)
    ensures u % 3600 == u % 3600 / 60 * 60 + u % 60
    ensures u % 86400 == u % 86400 / 3600 * 3600 + u % 3600 / 60 * 60 + u % 60
    ensures u == u / 86400 * 86400 + u % 86400
  {
    HourOfDay(u);
    MinuteOfHour(u);
  }

  lemma DayParts(t: nat)
    requires t >= TIMESTAMP_MIN
    ensures var s := Civil(t - TIMESTAMP_MIN);
            && t % 60 == s.second && t % 3600 == s.minute * 60 + s.second
            && t % 86400 == s.hour * 3600 + s.minute * 60 + s.second
            && t == Moment(s.year, s.month, s.date, t % 86400)
  {
    hide Civil, Moment;
    CivilParts(t - TIMESTAMP_MIN);
    SameRests(t);
  }

  lemma SameRests(t: nat)
    requires t >= TIMESTAMP_MIN
    ensures t % 60 == (t - TIMESTAMP_MIN) % 60
    ensures t % 3600 == (t - TIMESTAMP_MIN) % 3600
    ensures t % 86400 == (t - TIMESTAMP_MIN) % 86400
  {
    MidnightsAgree(t - TIMESTAMP_MIN);
    HoursAgree(t - TIMESTAMP_MIN);
    MinutesAgree(t - TIMESTAMP_MIN);
  }

  /** The chip was set to t; its first n registers are read over those of the clock's own time u. */
  lemma PartlyReadShows(u: nat, t: nat, n: nat)
    requires TIMESTAMP_MIN <= u <= INT_MAX && TIMESTAMP_MIN <= t <= INT_MAX
    ensures var f := Received(Encode(u), Registers(Masked(Encode(t))), n);
            var a, b := Civil(u - TIMESTAMP_MIN), Civil(t - TIMESTAMP_MIN);
            Shown(f) == Stamp(
              if n > 6 then b.year else a.year, if n > 5 then b.month else a.month, if n > 4 then b.date else a.date,
              if n > 2 then b.hour else a.hour, if n > 1 then b.minute else a.minute, if n > 0 then b.second else a.second)
            && f.minutes < 128
  {
    hide Civil, Encode, ToBcd, FromBcd, Masked;
    EncodeMasked(u);
    EncodeMasked(t);
    ShownIsCivil(u);
    ShownIsCivil(t);
  }

  lemma TotalOf(f: Fields)
    requires var s := Shown(f); 1 <= s.month <= 12 && 1 <= s.date <= 31
    ensures var s := Shown(f);
            Decodable(f) && Total(f) == Moment(s.year, s.month, s.date, s.hour * 3600 + s.minute * 60 + s.second)
  {
    hide FromBcd, DaysBeforeYear, DaysBeforeMonth;
    var s := Shown(f);
    UnsignedDay(s.date);
    assert FromBcd(f.month) == s.month;
  }

  lemma LaterThatDay(year: nat, month: nat, date: nat, time: nat, later: nat)
    requires 1 <= month <= 12 && date >= 1
    ensures Moment(year, month, date, later) == Moment(year, month, date, time) - time + later
  {}

  /** Seconds, minutes or the time of day of own replaced by those of chip. */
  lemma Spliced(u: nat, t: nat, a: Stamp, b: Stamp)
    requires u >= TIMESTAMP_MIN && t >= TIMESTAMP_MIN
    requires a == Civil(u - TIMESTAMP_MIN) && b == Civil(t - TIMESTAMP_MIN)
    ensures Moment(a.year, a.month, a.date, a.hour * 3600 + a.minute * 60 + a.second) == u
    ensures Moment(a.year, a.month, a.date, a.hour * 3600 + a.minute * 60 + b.second) == u - u % 60 + t % 60
    ensures Moment(a.year, a.month, a.date, a.hour * 3600 + b.minute * 60 + b.second) == u - u % 3600 + t % 3600
    ensures Moment(a.year, a.month, a.date, b.hour * 3600 + b.minute * 60 + b.second) == u - u % 86400 + t % 86400
  {
    hide Civil, Moment;
    DayParts(u);
    DayParts(t);
    SplicedParts(a, b, u, u % 60, u % 3600, u % 86400, t % 60, t % 3600, t % 86400);
  }

  lemma SplicedParts(a: Stamp, b: Stamp, u: nat, us: nat, um: nat, uh: nat, ts: nat, tm: nat, th: nat)
    requires 1 <= a.month <= 12 && a.date >= 1 && u == Moment(a.year, a.month, a.date, uh)
    requires us == a.second && um == a.minute * 60 + a.second && uh == a.hour * 3600 + a.minute * 60 + a.second
    requires ts == b.second && tm == b.minute * 60 + b.second && th == b.hour * 3600 + b.minute * 60 + b.second
    ensures Moment(a.year, a.month, a.date, a.hour * 3600 + a.minute * 60 + a.second) == u
    ensures Moment(a.year, a.month, a.date, a.hour * 3600 + a.minute * 60 + b.second) == u - us + ts
    ensures Moment(a.year, a.month, a.date, a.hour * 3600 + b.minute * 60 + b.second) == u - um + tm
    ensures Moment(a.year, a.month, a.date, b.hour * 3600 + b.minute * 60 + b.second) == u - uh + th
  {
    hide DaysBeforeYear, DaysBeforeMonth;
  }

  lemma PartlyReadIs(u: nat, t: nat, n: nat, s: Stamp, a: Stamp, b: Stamp)
    requires u >= TIMESTAMP_MIN && t >= TIMESTAMP_MIN
    requires a == Civil(u - TIMESTAMP_MIN) && b == Civil(t - TIMESTAMP_MIN)
    requires s == Stamp(
               if n > 6 then b.year else a.year, if n > 5 then b.month else a.month, if n > 4 then b.date else a.date,
               if n > 2 then b.hour else a.hour, if n > 1 then b.minute else a.minute, if n > 0 then b.second else a.second)
    ensures PartlyRead(u, t, n) == Moment(s.year, s.month, s.date, s.hour * 3600 + s.minute * 60 + s.second)
  {
    hide Civil, Moment;
    Spliced(u, t, a, b);
    Spliced(t, u, b, a);
    assert t % 86400 == b.hour * 3600 + b.minute * 60 + b.second by { DayParts(t); }
  }

  lemma PartlyReadTotal(u: nat, t: nat, n: nat)
    requires TIMESTAMP_MIN <= u <= INT_MAX && TIMESTAMP_MIN <= t <= INT_MAX
    ensures var f := Received(Encode(u), Registers(Masked(Encode(t))), n);
            Decodable(f) && Total(f) == PartlyRead(u, t, n)
  {
    var f := Received(Encode(u), Registers(Masked(Encode(t))), n);
    var a, b := Civil(u - TIMESTAMP_MIN), Civil(t - TIMESTAMP_MIN);
    MonthAtMost31(a.year, a.month - 1);
    MonthAtMost31(b.year, b.month - 1);
    hide Civil, Encode, Received, Masked, Registers, Shown, MonthLength, Moment, Total, Decodable, PartlyRead;
    PartlyReadShows(u, t, n);
    PartlyReadIs(u, t, n, Shown(f), a, b);
    TotalOf(f);
  }

  /** A read that stops early takes over the seconds, then the minutes, then the time of day, then the
      day of the month, the month and the year; a moment past 2147483647 sets the clock to the start
      of 2024. */
  lemma PartialRead(u: uint32, t: uint32, n: nat)
    requires TIMESTAMP_MIN <= u <= INT_MAX && TIMESTAMP_MIN <= t <= INT_MAX
    ensures var chip := Registers(Masked(Encode(t)));
            var x := PartlyRead(u, t, n);
            && Decodable(Received(Encode(u), chip, n))
            && Resynchronized(u, chip, n) == if x <= INT_MAX then x else TIMESTAMP_MIN
  {
    var f := Received(Encode(u), Registers(Masked(Encode(t))), n);
    PartlyReadTotal(u, t, n);
    PartlyReadShows(u, t, n);
    PartlyReadBounds(u, t, n);
    hide Encode, Received, Masked, Registers, Shown, Total, PartlyRead, Outcome, Decodable, Civil;
    OutcomeExactly(f);
    Below32(PartlyRead(u, t, n));
  }

  lemma Below32(x: nat)
    requires x < 0x1_0000_0000
    ensures x % 0x1_0000_0000 == x
  {}

  lemma PartlyReadBounds(u: nat, t: nat, n: nat)
    requires TIMESTAMP_MIN <= u <= INT_MAX && TIMESTAMP_MIN <= t <= INT_MAX
    ensures TIMESTAMP_MIN <= PartlyRead(u, t, n) < 0x1_0000_0000
  {
    hide Civil, Moment;
    if n <= 4 {
      RestsBelow(u, t);
    } else if n < 7 {
      var a, b := Civil(u - TIMESTAMP_MIN), Civil(t - TIMESTAMP_MIN);
      DayOfYearBounds(u, t, if n == 5 then a.month else b.month, b.date);
    }
  }

  lemma DayOfYearBounds(u: nat, t: nat, month: nat, date: nat)
    requires TIMESTAMP_MIN <= u <= INT_MAX && TIMESTAMP_MIN <= t
    requires 1 <= month <= 12 && date == Civil(t - TIMESTAMP_MIN).date
    ensures TIMESTAMP_MIN <= Moment(Civil(u - TIMESTAMP_MIN).year, month, date, t % 86400) < 0x1_0000_0000
  {
    var a, b := Civil(u - TIMESTAMP_MIN), Civil(t - TIMESTAMP_MIN);
    DayParts(u);
    MonthAtMost31(b.year, b.month - 1);
    hide Civil, MonthLength, Moment;
    MomentBounds(a.year, month, date, t % 86400, a.month, a.date, u % 86400);
  }

  lemma RestsBelow(u: nat, t: nat)
    requires u >= TIMESTAMP_MIN
    ensures u % 60 <= u % 86400 && u % 3600 <= u % 86400 && u - u % 86400 >= TIMESTAMP_MIN
    ensures t % 60 < 86400 && t % 3600 < 86400 && t % 86400 < 86400
  {
    TimeParts(u);
    MidnightsAgree(u - TIMESTAMP_MIN);
  }

  /** Two moments of one year are at most 398 days apart. */
  lemma MomentBounds(year: nat, month: nat, date: nat, time: nat, month': nat, date': nat, time': nat)
    requires 1 <= month <= 12 && 1 <= date <= 31 && time < 86400
    requires 1 <= month' <= 12 && date' >= 1
    ensures TIMESTAMP_MIN <= Moment(year, month, date, time) <= Moment(year, month', date', time') + 398 * 86400
  {
    WholeYear(year);
    if month < 12 {
      MonthsGrow(year, month - 1, 12);
    }
    hide DaysBeforeYear, DaysBeforeMonth, MonthLength;
  }

  // ---- What setting the chip clears ----

  /** The stop bit, the oscillator flag and the reserved bits are cleared, and so are the three
      configuration registers. */
  lemma FlagsCleared(f: Fields)
    ensures var chip := Registers(Masked(f));
            && chip[0] < 128 && chip[1] < 128 && chip[3] < 8 && chip[4] < 64 && chip[5] < 32
            && chip[7] == 0 && chip[8] == 0 && chip[9] == 0
  {}

  /** The weekday register counts from 1 at the first midnight, 2 until the next one inclusive, to 8. */
  lemma WeekdaySpan(t: nat, d: nat)
    ensures WeekdayNumber(t) == d <==> 86400 * (d - 2) < t % 604800 <= 86400 * (d - 1)
  {}
}
