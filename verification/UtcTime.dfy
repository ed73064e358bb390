/** Seconds since the epoch and broken-down UTC time. */
module UtcTime {
  import opened Calendar

  const SECONDS_PER_DAY := 24 * 60 * 60

  /** The Julian day number of 1 January 1970. */
  const EPOCH_DAY := 2440588

  lemma EpochDay()
    ensures JulianDayNumber(1970, 1, 1) == EPOCH_DAY
  {
  }

  /** `struct tm` without its zone fields; `year` counts from 1900 and `mon` from 0. */
  datatype Tm = Tm(year: int, mon: int, mday: int, hour: int, min: int, sec: int, wday: int, yday: int)

  function DateOf(tm: Tm): YearMonthDay {
    YearMonthDay(tm.year + 1900, tm.mon + 1, tm.mday)
  }

  /** The day and the second within it, as the code splits them: truncate, then borrow if negative. */
  function SplitDay(s: int): (int, int) {
    var seconds := CMod(s, SECONDS_PER_DAY);
    var days := CDiv(s, SECONDS_PER_DAY);
    if seconds < 0 then (days - 1, seconds + SECONDS_PER_DAY) else (days, seconds)
  }

  function ToUtcTime(s: int, yday: bool): Tm {
    var (days, seconds) := SplitDay(s);
    Fields(days + EPOCH_DAY, Civil(days + EPOCH_DAY), seconds, yday)
  }

  /** The fields for a second of a day, given the day's number and date. */
  function Fields(day: int, ymd: YearMonthDay, seconds: int, yday: bool): Tm {
    var minutes := seconds / 60;
    Tm(ymd.year - 1900, ymd.month - 1, ymd.day, minutes / 60, minutes % 60, seconds % 60, CMod(day + 1, 7),
       if yday then day - JulianDayNumber(ymd.year, 1, 1) else 0)
  }

  function FromFields(year: int, month: int, day: int, hour: int, minute: int, seconds: int): int {
    (JulianDayNumber(year, month, day) - EPOCH_DAY) * SECONDS_PER_DAY + (hour * 3600 + minute * 60 + seconds)
  }

  function FromUtcTime(tm: Tm): int {
    FromFields(tm.year + 1900, tm.mon + 1, tm.mday, tm.hour, tm.min, tm.sec)
  }

  /** The Julian day number of the day holding instant `s`. */
  function DayOf(s: int): int {
    s / SECONDS_PER_DAY + EPOCH_DAY
  }

  /** The instants the conversions are for: from 1 March of year -4800 to the limit of 32-bit arithmetic. */
  predicate Representable(s: int) {
    FIRST_DAY <= DayOf(s) <= LAST_DAY
  }

  /** The truncating split rounds down, for negative instants too. */
  lemma SplitIsEuclidean(s: int)
    ensures SplitDay(s) == (s / SECONDS_PER_DAY, s % SECONDS_PER_DAY)
  {
  }

  predicate IsTimeOfDay(tm: Tm) {
    0 <= tm.hour < 24 && 0 <= tm.min < 60 && 0 <= tm.sec < 60
  }

  lemma HoursMinutesSeconds(second: int)
    requires 0 <= second < SECONDS_PER_DAY
    ensures var minutes := second / 60;
            && 0 <= minutes / 60 < 24 && 0 <= minutes % 60 < 60
            && (minutes / 60) * 3600 + (minutes % 60) * 60 + second % 60 == second
  {
  }

  lemma FieldsOf(day: int, ymd: YearMonthDay, second: int, yday: bool, tm: Tm)
    requires 0 <= second < SECONDS_PER_DAY && tm == Fields(day, ymd, second, yday)
    ensures DateOf(tm) == ymd && IsTimeOfDay(tm) && tm.hour * 3600 + tm.min * 60 + tm.sec == second
    ensures tm.wday == CMod(day + 1, 7)
    ensures yday ==> tm.yday == day - JulianDayNumber(tm.year + 1900, 1, 1)
  {
    HoursMinutesSeconds(second);
  }

  /** Second `second` of day `day`, as `ToUtcTime` lays it out. */
  lemma LaidOut(s: int, yday: bool, tm: Tm, day: int, second: int)
    requires tm == ToUtcTime(s, yday) && day == DayOf(s) && second == s % SECONDS_PER_DAY
    ensures DateOf(tm) == Civil(day) && IsTimeOfDay(tm) && tm.hour * 3600 + tm.min * 60 + tm.sec == second
    ensures tm.wday == CMod(day + 1, 7)
    ensures yday ==> tm.yday == day - JulianDayNumber(tm.year + 1900, 1, 1)
  {
    SplitIsEuclidean(s);
    FieldsOf(day, Civil(day), second, yday, tm);
  }

  /** The fields of an instant: the time of day in range, and the date of its day. */
  lemma UtcFields(s: int, yday: bool, tm: Tm)
    requires Representable(s) && tm == ToUtcTime(s, yday)
    ensures IsTimeOfDay(tm) && InRange(DateOf(tm)) && NumberOf(DateOf(tm)) == DayOf(s)
    ensures tm.hour * 3600 + tm.min * 60 + tm.sec == s % SECONDS_PER_DAY && (!yday ==> tm.yday == 0)
  {
    LaidOut(s, yday, tm, DayOf(s), s % SECONDS_PER_DAY);
    NumberOfCivil(DayOf(s));
  }

  lemma Assembled(tm: Tm, s: int)
    requires NumberOf(DateOf(tm)) == DayOf(s)
    requires tm.hour * 3600 + tm.min * 60 + tm.sec == s % SECONDS_PER_DAY
    ensures FromUtcTime(tm) == s
  {
  }

  /** From an instant to its fields and back, before the epoch too. */
  lemma FromUtcOfToUtc(s: int, yday: bool)
    requires Representable(s)
    ensures FromUtcTime(ToUtcTime(s, yday)) == s
  {
    var tm := ToUtcTime(s, yday);
    UtcFields(s, yday, tm);
    Assembled(tm, s);
  }

  lemma Disassembled(tm: Tm, s: int, day: int)
    requires s == FromUtcTime(tm) && IsTimeOfDay(tm) && day == NumberOf(DateOf(tm))
    ensures DayOf(s) == day && s % SECONDS_PER_DAY == tm.hour * 3600 + tm.min * 60 + tm.sec
  {
  }

  /** From fields to their instant and back. */
  lemma ToUtcOfFromUtc(tm: Tm, yday: bool, tm': Tm)
    requires InRange(DateOf(tm)) && IsTimeOfDay(tm) && tm' == ToUtcTime(FromUtcTime(tm), yday)
    ensures DateOf(tm') == DateOf(tm) && tm'.hour == tm.hour && tm'.min == tm.min && tm'.sec == tm.sec
  {
    var s := FromUtcTime(tm);
    Disassembled(tm, s, NumberOf(DateOf(tm)));
    LaidOut(s, yday, tm', DayOf(s), s % SECONDS_PER_DAY);
    CivilOfNumber(DateOf(tm));
    SameTime(tm, tm');
  }

  lemma SameTime(a: Tm, b: Tm)
    requires IsTimeOfDay(a) && IsTimeOfDay(b)
    requires a.hour * 3600 + a.min * 60 + a.sec == b.hour * 3600 + b.min * 60 + b.sec
    ensures a.hour == b.hour && a.min == b.min && a.sec == b.sec
  {
  }

  lemma RemainderInRange(n: int)
    ensures 0 <= CMod(n, 7) < 7 <==> n >= 0 || n % 7 == 0
    ensures n >= 0 ==> CMod(n, 7) == n % 7
  {
  }

  /**
   The weekday lies in 0 to 6 for every day from number -1 on. C's remainder makes it negative on earlier
   days, except the ones whose number leaves no remainder.
   */
  lemma WeekdayInRangeIff(s: int, yday: bool, tm: Tm)
    requires Representable(s) && tm == ToUtcTime(s, yday)
    ensures 0 <= tm.wday < 7 <==> DayOf(s) >= -1 || (DayOf(s) + 1) % 7 == 0
    ensures DayOf(s) >= -1 ==> tm.wday == (DayOf(s) + 1) % 7
  {
    LaidOut(s, yday, tm, DayOf(s), s % SECONDS_PER_DAY);
    RemainderInRange(DayOf(s) + 1);
  }

  /** The days of the months before `month`. */
  function DaysBeforeMonth(year: int, month: int): int {
    if month <= 1 then 0 else DaysBeforeMonth(year, month - 1) + MonthLength(year, month - 1)
  }

  lemma {:induction false} DaysFromMarch(year: int, month: int)
    requires 1 <= month <= 12
    ensures DaysBeforeMonth(year, month)
         == if month <= 2 then 31 * (month - 1)
            else DaysBefore(MarchMonth(month)) + 59 + (if IsLeap(year) then 1 else 0)
  {
    if month > 1 {
      DaysFromMarch(year, month - 1);
      if month > 3 {
        MonthEnds(year, month - 1);
      }
    }
  }

  /** 1 January, in March-based terms; in year -4800 the formula is a day late. */
  lemma NewYear(year: int)
    requires year >= -4800
    ensures JulianDayNumber(year, 1, 1)
         == if year == -4800 then FIRST_DAY - 59 else FIRST_DAY + YearStart(year + 4799) + 306
  {
    if year > -4800 {
      NumberFromMarch(YearMonthDay(year, 1, 1));
    }
  }

  /** The days from 1 January, number `j`, to a date, number `n`. */
  lemma DaysSince(ymd: YearMonthDay, n: int, j: int)
    requires InRange(ymd)
    requires n == FIRST_DAY + MarchDay(ymd) - 1
    requires j == if ymd.year == -4800 then FIRST_DAY - 59 else FIRST_DAY + YearStart(ymd.year + 4799) + 306
    ensures n - j == DaysBeforeMonth(ymd.year, ymd.month) + ymd.day - 1 - (if ymd.year == -4800 then 1 else 0)
  {
    DaysFromMarch(ymd.year, ymd.month);
    if ymd.year > -4800 {
      MarchLeap(ymd.year + 4799);
    }
  }

  lemma YearDayOf(tm: Tm, day: int)
    requires InRange(DateOf(tm)) && day == FIRST_DAY + MarchDay(DateOf(tm)) - 1
    requires tm.yday == day - JulianDayNumber(tm.year + 1900, 1, 1)
    ensures tm.yday == DaysBeforeMonth(tm.year + 1900, tm.mon + 1) + tm.mday - 1
            <==> tm.year + 1900 > -4800
  {
    var ymd := DateOf(tm);
    NewYear(ymd.year);
    DaysSince(ymd, day, JulianDayNumber(ymd.year, 1, 1));
  }

  /** The day of the year counts the days before it, from 0; it is right exactly in the years after -4800. */
  lemma YearDayIsExact(s: int, tm: Tm)
    requires Representable(s) && tm == ToUtcTime(s, true)
    ensures tm.yday == DaysBeforeMonth(tm.year + 1900, tm.mon + 1) + tm.mday - 1
            <==> tm.year + 1900 > -4800
  {
    UtcFields(s, true, tm);
    LaidOut(s, true, tm, DayOf(s), s % SECONDS_PER_DAY);
    NumberFromMarch(DateOf(tm));
    YearDayOf(tm, DayOf(s));
  }

  /** Every second of day number -2 has weekday -1. */
  lemma NegativeWeekday(s: int, tm: Tm)
    requires DayOf(s) == -2 && tm == ToUtcTime(s, true)
    ensures Representable(s) && tm.wday == -1
  {
    LaidOut(s, true, tm, -2, s % SECONDS_PER_DAY);
  }

  /**
   Every second of 1 March of year -4800, a leap year, has day of the year 59, although 60 days of the year
   come before it.
   */
  lemma ShortYearDay(s: int, tm: Tm)
    requires DayOf(s) == FIRST_DAY && tm == ToUtcTime(s, true)
    ensures Representable(s) && DateOf(tm) == YearMonthDay(-4800, 3, 1)
    ensures tm.yday == 59 && DaysBeforeMonth(tm.year + 1900, 3) == 60
  {
    UtcFields(s, true, tm);
    LaidOut(s, true, tm, DayOf(s), s % SECONDS_PER_DAY);
    FirstYearDay(tm);
    TwoMonths(tm.year + 1900);
  }

  lemma FirstYearDay(tm: Tm)
    requires InRange(DateOf(tm)) && NumberOf(DateOf(tm)) == FIRST_DAY
    requires tm.yday == FIRST_DAY - JulianDayNumber(tm.year + 1900, 1, 1)
    ensures DateOf(tm) == YearMonthDay(-4800, 3, 1) && tm.yday == 59
  {
    OnlyFirstDate(DateOf(tm));
    NewYear(tm.year + 1900);
  }

  lemma TwoMonths(year: int)
    requires year == -4800
    ensures DaysBeforeMonth(year, 3) == 60
  {
    assert IsLeap(-4800);
    assert DaysBeforeMonth(year, 2) == 31;
  }

  lemma OnlyFirstDate(ymd: YearMonthDay)
    requires InRange(ymd) && NumberOf(ymd) == FIRST_DAY
    ensures ymd == YearMonthDay(-4800, 3, 1)
  {
    NumberFromMarch(ymd);
    StartGrows(MarchYear(ymd));
  }

  lemma StartGrows(y: int)
    requires y >= 0
    ensures YearStart(y) >= 365 * y
  {
  }

  /** Such seconds exist. */
  lemma SecondOfDay(day: int) returns (s: int)
    ensures DayOf(s) == day
  {
    s := (day - EPOCH_DAY) * SECONDS_PER_DAY;
  }
}
