/** The calendar the clock keeps: seconds counted from the start of 2024, years numbered from
    there, and every fourth year a leap year. */
module Calendar {

  datatype Stamp = Stamp(year: nat, month: nat, date: nat, hour: nat, minute: nat, second: nat)

  /** The start of 2024 in Unix seconds. */
  const TIMESTAMP_MIN := 1704067200

  const SECONDS_PER_DAY := 86400
  const SECONDS_PER_WEEK := 604800

  /** Lengths of the months of an ordinary year. */
  const MONTH_LENGTHS: seq<nat> := [31, 28, 31, 30, 31, 30, 31, 31, 30, 31, 30, 31]

  predicate Leap(year: nat) { year % 4 == 0 }

  function YearLength(year: nat): nat { if Leap(year) then 366 else 365 }

  /** Months are counted from 0 here. */
  function MonthLength(year: nat, m: nat): nat
    requires m < 12
  {
    if m == 1 && Leap(year) then 29 else MONTH_LENGTHS[m]
  }

  function DaysBeforeYear(year: nat): nat {
    if year == 0 then 0 else DaysBeforeYear(year - 1) + YearLength(year - 1)
  }

  function DaysBeforeMonth(year: nat, m: nat): nat
    requires m <= 12
  {
    if m == 0 then 0 else DaysBeforeMonth(year, m - 1) + MonthLength(year, m - 1)
  }

  predicate Valid(s: Stamp) {
    && 1 <= s.month <= 12
    && 1 <= s.date <= MonthLength(s.year, s.month - 1)
    && s.hour < 24 && s.minute < 60 && s.second < 60
  }

  function DayNumber(s: Stamp): nat
    requires Valid(s)
  {
    DaysBeforeYear(s.year) + DaysBeforeMonth(s.year, s.month - 1) + s.date - 1
  }

  /** Seconds since the start of 2024. */
  function Seconds(s: Stamp): nat
    requires Valid(s)
  {
    DayNumber(s) * SECONDS_PER_DAY + s.hour * 3600 + s.minute * 60 + s.second
  }

  lemma {:induction false} DaysBeforeYearClosed(year: nat)
    ensures DaysBeforeYear(year) == 365 * year + (year + 3) / 4
    decreases year
  {
    if year > 0 {
      DaysBeforeYearClosed(year - 1);
    }
  }

  lemma MonthAtMost31(year: nat, m: nat)
    requires m < 12
    ensures 28 <= MonthLength(year, m) <= 31
  {}

  lemma WholeYear(year: nat)
    ensures DaysBeforeMonth(year, 12) == YearLength(year)
    ensures DaysBeforeMonth(year, 11) + 31 == YearLength(year)
  {
    var leap := if Leap(year) then 1 else 0;
    assert DaysBeforeMonth(year, 1) == 31;
    assert DaysBeforeMonth(year, 2) == 59 + leap;
    assert DaysBeforeMonth(year, 4) == 120 + leap;
    assert DaysBeforeMonth(year, 6) == 181 + leap;
    assert DaysBeforeMonth(year, 8) == 243 + leap;
    assert DaysBeforeMonth(year, 10) == 304 + leap;
  }

  lemma {:induction false} MonthsGrow(year: nat, m: nat, n: nat)
    requires m < n <= 12
    ensures DaysBeforeMonth(year, m) + MonthLength(year, m) <= DaysBeforeMonth(year, n)
    decreases n
  {
    if m < n - 1 {
      MonthsGrow(year, m, n - 1);
    }
  }

  lemma {:induction false} YearsGrow(y: nat, z: nat)
    requires y < z
    ensures DaysBeforeYear(y) + YearLength(y) <= DaysBeforeYear(z)
    decreases z
  {
    if y < z - 1 {
      YearsGrow(y, z - 1);
    }
  }

  // ---- Order ----

  predicate DateBefore(s: Stamp, t: Stamp) {
    || s.year < t.year
    || (s.year == t.year && (s.month < t.month || (s.month == t.month && s.date < t.date)))
  }

  predicate SameDate(s: Stamp, t: Stamp) {
    s.year == t.year && s.month == t.month && s.date == t.date
  }

  /** Field by field, from the year down. */
  predicate Before(s: Stamp, t: Stamp) {
    || DateBefore(s, t)
    || (SameDate(s, t) && (s.hour < t.hour || (s.hour == t.hour
        && (s.minute < t.minute || (s.minute == t.minute && s.second < t.second)))))
  }

  lemma EarlierDateSmallerDay(s: Stamp, t: Stamp)
    requires Valid(s) && Valid(t) && DateBefore(s, t)
    ensures DayNumber(s) < DayNumber(t)
  {
    if s.year < t.year {
      YearsGrow(s.year, t.year);
      WholeYear(s.year);
      if s.month < 12 {
        MonthsGrow(s.year, s.month - 1, 12);
      }
    } else if s.month < t.month {
      MonthsGrow(s.year, s.month - 1, t.month - 1);
    }
  }

  lemma BeforeIsSmaller(s: Stamp, t: Stamp)
    requires Valid(s) && Valid(t) && Before(s, t)
    ensures Seconds(s) < Seconds(t)
  {
    if DateBefore(s, t) {
      EarlierDateSmallerDay(s, t);
      assert DayNumber(s) * SECONDS_PER_DAY + SECONDS_PER_DAY <= DayNumber(t) * SECONDS_PER_DAY;
    }
  }

  /** The order of the fields is the order of time; so a moment has one stamp only. */
  lemma OrderIsTime(s: Stamp, t: Stamp)
    requires Valid(s) && Valid(t)
    ensures Before(s, t) <==> Seconds(s) < Seconds(t)
    ensures Seconds(s) == Seconds(t) ==> s == t
  {
    if Before(s, t) {
      BeforeIsSmaller(s, t);
    } else if Before(t, s) {
      BeforeIsSmaller(t, s);
    }
  }

  // ---- One second later ----

  function NextDate(s: Stamp): Stamp
    requires Valid(s)
  {
    if s.date < MonthLength(s.year, s.month - 1) then s.(date := s.date + 1)
    else if s.month < 12 then s.(month := s.month + 1, date := 1)
    else s.(year := s.year + 1, month := 1, date := 1)
  }

  /** The carry from second to minute to hour to date to month to year. */
  function Next(s: Stamp): Stamp
    requires Valid(s)
  {
    if s.second < 59 then s.(second := s.second + 1)
    else if s.minute < 59 then s.(minute := s.minute + 1, second := 0)
    else if s.hour < 23 then s.(hour := s.hour + 1, minute := 0, second := 0)
    else NextDate(s).(hour := 0, minute := 0, second := 0)
  }

  lemma NextDateIsNextDay(s: Stamp)
    requires Valid(s)
    ensures Valid(NextDate(s)) && DayNumber(NextDate(s)) == DayNumber(s) + 1
  {
    hide DaysBeforeYear, DaysBeforeMonth, MonthLength, YearLength;
    if s.month < 12 {
      MonthAtMost31(s.year, s.month);
      MonthStep(s.year, s.month - 1);
    } else {
      WholeYear(s.year);
      MonthAtMost31(s.year + 1, 0);
      FirstDay(s.year);
    }
  }

  lemma MonthStep(year: nat, m: nat)
    requires m < 12
    ensures DaysBeforeMonth(year, m + 1) == DaysBeforeMonth(year, m) + MonthLength(year, m)
  {}

  lemma FirstDay(year: nat)
    ensures DaysBeforeMonth(year + 1, 0) == 0 && MonthLength(year, 11) == 31
    ensures DaysBeforeYear(year + 1) == DaysBeforeYear(year) + YearLength(year)
  {}

  lemma NextIsOneSecondLater(s: Stamp)
    requires Valid(s)
    ensures Valid(Next(s)) && Seconds(Next(s)) == Seconds(s) + 1
  {
    var n := Next(s);
    if s.second == 59 && s.minute == 59 && s.hour == 23 {
      NextDateIsNextDay(s);
      hide DaysBeforeYear, DaysBeforeMonth;
      assert DayNumber(n) == DayNumber(NextDate(s));
    } else {
      hide DaysBeforeYear, DaysBeforeMonth;
      assert DayNumber(n) == DayNumber(s);
    }
  }

  // ---- The civil calendar ----

  /** Days of a year before a date, by the rule that five months from March on have 153 days. */
  function YearDay(leap: bool, month: nat, date: nat): nat
    requires 1 <= month <= 12 && date >= 1
  {
    date - 1 + if month <= 2 then 31 * (month - 1) else 59 + (if leap then 1 else 0) + (153 * (month - 3) + 2) / 5
  }

  predicate GregorianLeap(year: nat) { year % 4 == 0 && (year % 100 != 0 || year % 400 == 0) }

  /** Seconds since the Epoch, as section 4.16 of POSIX.1-2017 defines them for a year counted from
      1900. */
  function Posix(s: Stamp): int
    requires Valid(s)
  {
    var year := s.year + 124;
    s.second + s.minute * 60 + s.hour * 3600
      + YearDay(GregorianLeap(year + 1900), s.month, s.date) * 86400
      + (year - 70) * 31536000 + (year - 69) / 4 * 86400 - (year - 1) / 100 * 86400 + (year + 299) / 400 * 86400
  }

  lemma MonthsClosed(year: nat, m: nat)
    requires m < 12
    ensures DaysBeforeMonth(year, m) == YearDay(Leap(year), m + 1, 1)
  {
    var leap := if Leap(year) then 1 else 0;
    assert DaysBeforeMonth(year, 1) == 31;
    assert DaysBeforeMonth(year, 2) == 59 + leap;
    if m > 2 {
      assert DaysBeforeMonth(year, 4) == 120 + leap;
      if m > 4 {
        assert DaysBeforeMonth(year, 6) == 181 + leap;
        if m > 6 {
          assert DaysBeforeMonth(year, 8) == 243 + leap;
          if m > 8 {
            assert DaysBeforeMonth(year, 10) == 304 + leap;
          }
        }
      }
    }
  }

  lemma LeapSame(year: nat)
    requires year < 76
    ensures Leap(year) == GregorianLeap(year + 2024)
  {
    assert (year + 2024) % 4 == year % 4;
    assert year + 2024 < 2100;
  }

  /** Days that the centuries add without a leap day, from 2100 on. */
  lemma Centuries(year: nat)
    ensures (year + 123) / 100 - (year + 423) / 400 >= 0
    ensures (year + 123) / 100 == (year + 423) / 400 <==> year < 77
  {
    var z := year + 123;
    var q, r := z / 100, z % 100;
    assert z == 100 * q + r;
    assert (z + 300) / 400 <= (q + 3) / 4;
  }

  /** The stamps are the civil dates of their timestamps until the end of February 2100, and never
      after it: the clock takes 2100 for a leap year. */
  lemma CivilUntil2100(s: Stamp)
    requires Valid(s)
    ensures TIMESTAMP_MIN + Seconds(s) == Posix(s) <==> s.year < 76 || (s.year == 76 && s.month <= 2)
  {
    DaysBeforeYearClosed(s.year);
    MonthsClosed(s.year, s.month - 1);
    Centuries(s.year);
    if s.year < 76 {
      LeapSame(s.year);
    }
    var extra := (s.year + 123) / 100 - (s.year + 423) / 400;
    var y, g := YearDay(Leap(s.year), s.month, s.date), YearDay(GregorianLeap(s.year + 2024), s.month, s.date);
    assert (s.year + 55) / 4 == 13 + (s.year + 3) / 4;
    assert TIMESTAMP_MIN + Seconds(s) - Posix(s) == (extra + y - g) * 86400;
    LeapOrder(s);
    hide DaysBeforeYear, DaysBeforeMonth, YearDay, GregorianLeap, Seconds, Posix, DayNumber;
  }

  lemma LeapOrder(s: Stamp)
    requires Valid(s)
    ensures var y, g := YearDay(Leap(s.year), s.month, s.date), YearDay(GregorianLeap(s.year + 2024), s.month, s.date);
            g <= y && (s.year == 76 ==> (g == y <==> s.month <= 2))
  {
    assert (s.year + 2024) % 4 == s.year % 4;
  }
}
