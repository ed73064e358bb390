/** Civil dates and Julian day numbers, with C's integer division. */
module Calendar {

  /** C's `/` and `%`: the quotient is truncated toward zero. */
  function CDiv(a: int, b: int): int
    requires b > 0
  {
    if a >= 0 then a / b else -((-a) / b)
  }

  function CMod(a: int, b: int): int
    requires b > 0
  {
    a - b * CDiv(a, b)
  }

  datatype YearMonthDay = YearMonthDay(year: int, month: int, day: int)

  function JulianDayNumber(year: int, month: int, day: int): int {
    var a := CDiv(14 - month, 12);
    var y := year + 4800 - a;
    var m := month + 12 * a - 3;
    day + CDiv(153 * m + 2, 5) + y * 365 + CDiv(y, 4) - CDiv(y, 100) + CDiv(y, 400) - 32045
  }

  function Civil(julianDayNumber: int): YearMonthDay {
    var a := julianDayNumber + 32044;
    var b := CDiv(4 * a + 3, 146097);
    CivilInCentury(b, a - CDiv(b * 146097, 4))
  }

  function CivilInCentury(b: int, c: int): YearMonthDay {
    var d := CDiv(4 * c + 3, 1461);
    CivilInYear(b, d, c - CDiv(1461 * d, 4))
  }

  function CivilInYear(b: int, d: int, e: int): YearMonthDay {
    var m := CDiv(5 * e + 2, 153);
    YearMonthDay(b * 100 + d - 4800 + CDiv(m, 10), m + 3 - 12 * CDiv(m, 10), e - CDiv(153 * m + 2, 5) + 1)
  }

  /** The Julian day number of 1 March 4801 BC (year -4800), where the formulas start to hold. */
  const FIRST_DAY := -32044

  // ---------- the Gregorian calendar ----------

  predicate IsLeap(year: int) {
    year % 4 == 0 && (year % 100 != 0 || year % 400 == 0)
  }

  function MonthLength(year: int, month: int): int {
    if month == 2 then (if IsLeap(year) then 29 else 28)
    else if month == 4 || month == 6 || month == 9 || month == 11 then 30
    else 31
  }

  predicate IsDate(ymd: YearMonthDay) {
    1 <= ymd.month <= 12 && 1 <= ymd.day <= MonthLength(ymd.year, ymd.month)
  }

  /** A date on or after 1 March of year -4800. */
  predicate InRange(ymd: YearMonthDay) {
    IsDate(ymd) && (ymd.year > -4800 || (ymd.year == -4800 && ymd.month >= 3))
  }

  function NextDay(ymd: YearMonthDay): YearMonthDay {
    if ymd.day < MonthLength(ymd.year, ymd.month) then ymd.(day := ymd.day + 1)
    else if ymd.month < 12 then YearMonthDay(ymd.year, ymd.month + 1, 1)
    else YearMonthDay(ymd.year + 1, 1, 1)
  }

  function NumberOf(ymd: YearMonthDay): int {
    JulianDayNumber(ymd.year, ymd.month, ymd.day)
  }

  // ---------- years and months counted from March ----------

  /** The year of a date, and its month, both starting in March; `y` counts from year -4800. */
  function MarchYear(ymd: YearMonthDay): int {
    if ymd.month >= 3 then ymd.year + 4800 else ymd.year + 4799
  }

  function MarchMonth(month: int): int {
    if month >= 3 then month - 3 else month + 9
  }

  /** Days before the March-based month `m`. */
  function DaysBefore(m: int): int {
    (153 * m + 2) / 5
  }

  /** Days before the March-based year `y`. */
  function YearStart(y: int): int {
    365 * y + y / 4 - y / 100 + y / 400
  }

  lemma NumberFromMarch(ymd: YearMonthDay)
    requires InRange(ymd)
    ensures NumberOf(ymd) == FIRST_DAY + MarchDay(ymd) - 1
    ensures MarchYear(ymd) >= 0
  {
    ShiftOf(ymd.month);
    NumberShifted(ymd, if ymd.month >= 3 then 0 else 1, MarchYear(ymd), MarchMonth(ymd.month));
  }

  /** January and February count as months 13 and 14 of the year before. */
  lemma ShiftOf(month: int)
    requires 1 <= month <= 12
    ensures CDiv(14 - month, 12) == if month >= 3 then 0 else 1
  {
  }

  lemma NumberShifted(ymd: YearMonthDay, a: int, y: int, m: int)
    requires a == CDiv(14 - ymd.month, 12) && y == ymd.year + 4800 - a && m == ymd.month + 12 * a - 3
    requires y >= 0 && m >= 0
    ensures NumberOf(ymd) == FIRST_DAY + YearStart(y) + DaysBefore(m) + ymd.day - 1
  {
  }

  /** How the counts of leap years move from one year to the next. */
  lemma LeapCounts(y: int)
    requires y >= 0
    ensures (y + 1) / 4 == y / 4 + (if y % 4 == 3 then 1 else 0)
    ensures (y + 1) / 100 == y / 100 + (if y % 100 == 99 then 1 else 0)
    ensures (y + 1) / 400 == y / 400 + (if y % 400 == 399 then 1 else 0)
  {
  }

  lemma Remainder4(y: int, q: int, r: int)
    requires y == 4 * q + r && 0 <= r < 4
    ensures y % 4 == r
  {
  }

  lemma Remainder100(y: int, q: int, r: int)
    requires y == 100 * q + r && 0 <= r < 100
    ensures y % 100 == r
  {
  }

  lemma Remainder400(y: int, q: int, r: int)
    requires y == 400 * q + r && 0 <= r < 400
    ensures y % 400 == r
  {
  }

  lemma IsLeapFromMarch(y: int)
    requires y >= 0
    ensures IsLeap(y + 1 - 4800) <==> (y % 4 == 3 && (y % 100 != 99 || y % 400 == 399))
  {
    var z := y + 1 - 4800;
    Remainder4(z, y / 4 - 1200 + (if y % 4 == 3 then 1 else 0), if y % 4 == 3 then 0 else y % 4 + 1);
    Remainder100(z, y / 100 - 48 + (if y % 100 == 99 then 1 else 0), if y % 100 == 99 then 0 else y % 100 + 1);
    Remainder400(z, y / 400 - 12 + (if y % 400 == 399 then 1 else 0), if y % 400 == 399 then 0 else y % 400 + 1);
  }

  lemma Nested(y: int)
    ensures y % 400 == 399 ==> y % 100 == 99
    ensures y % 100 == 99 ==> y % 4 == 3
  {
    if y % 400 == 399 {
      Remainder100(y, 4 * (y / 400) + 3, 99);
    }
    if y % 100 == 99 {
      Remainder4(y, 25 * (y / 100) + 24, 3);
    }
  }

  /** The March-based year `y` has its leap day, if any, at its end. */
  lemma MarchLeap(y: int)
    requires y >= 0
    ensures IsLeap(y + 1 - 4800) <==> (y % 4 == 3 && (y % 100 != 99 || y % 400 == 399))
    ensures YearStart(y + 1) == YearStart(y) + (if IsLeap(y + 1 - 4800) then 366 else 365)
  {
    IsLeapFromMarch(y);
    LeapCounts(y);
    Nested(y);
  }

  /** Every month but February ends where the next one starts. */
  lemma MonthEnds(year: int, month: int)
    requires 1 <= month <= 12 && month != 2
    ensures DaysBefore(MarchMonth(month) + 1) == DaysBefore(MarchMonth(month)) + MonthLength(year, month)
    ensures month < 12 ==> MarchMonth(month + 1) == MarchMonth(month) + 1
  {
  }

  lemma NextInRange(ymd: YearMonthDay)
    requires InRange(ymd)
    ensures InRange(NextDay(ymd))
  {
  }

  /** The day after a date has the next number. */
  lemma NextDayNextNumber(ymd: YearMonthDay)
    requires InRange(ymd)
    ensures InRange(NextDay(ymd)) && NumberOf(NextDay(ymd)) == NumberOf(ymd) + 1
  {
    NextInRange(ymd);
    NumberFromMarch(ymd);
    NumberFromMarch(NextDay(ymd));
    NextMarchDay(ymd);
  }

  /** The days from 1 March of year -4800 on, counting the date itself. */
  function MarchDay(ymd: YearMonthDay): int {
    YearStart(MarchYear(ymd)) + DaysBefore(MarchMonth(ymd.month)) + ymd.day
  }

  lemma NextMarchDay(ymd: YearMonthDay)
    requires InRange(ymd)
    ensures MarchDay(NextDay(ymd)) == MarchDay(ymd) + 1
  {
    if ymd.day < MonthLength(ymd.year, ymd.month) {
    } else if ymd.month == 2 {
      FebruaryEnds(ymd);
    } else {
      MonthEnds(ymd.year, ymd.month);
    }
  }

  /** March starts where February ends, a leap day later in a leap year. */
  lemma FebruaryEnds(ymd: YearMonthDay)
    requires InRange(ymd) && ymd.month == 2 && ymd.day == MonthLength(ymd.year, 2)
    ensures MarchYear(ymd) >= 0
    ensures YearStart(MarchYear(NextDay(ymd))) + DaysBefore(MarchMonth(3))
         == YearStart(MarchYear(ymd)) + DaysBefore(MarchMonth(2)) + ymd.day
  {
    MarchLeap(MarchYear(ymd));
    assert DaysBefore(MarchMonth(2)) == 337 && DaysBefore(MarchMonth(3)) == 0;
  }

  // ---------- the two conversions are inverse ----------

  /** Where a day falls in its 100-year and one-year spans, both starting in March. */
  lemma Spans(y: int)
    requires y >= 0
    ensures YearStart(y) == (146097 * (y / 100)) / 4 + (1461 * (y % 100)) / 4
  {
    var b, r := y / 100, y % 100;
    assert y == 100 * b + r;
    assert y / 4 == 25 * b + r / 4;
    assert y / 400 == b / 4;
    assert (146097 * b) / 4 == 36524 * b + b / 4;
    assert (1461 * r) / 4 == 365 * r + r / 4;
  }

  /** A day of March-based year `y`: its offset `e` in the year, below the year's length. */
  predicate DayOfYear(y: int, e: int) {
    y >= 0 && 0 <= e < (if IsLeap(y + 1 - 4800) then 366 else 365)
  }

  lemma FindsCentury(b: int, c: int)
    requires b >= 0 && c >= 0 && 4 * c + 3 - b % 4 < 146097
    ensures (4 * ((146097 * b) / 4 + c) + 3) / 146097 == b
  {
  }

  lemma FindsYearOfCentury(r: int, e: int)
    requires r >= 0 && e >= 0 && 4 * e + 3 - r % 4 < 1461
    ensures (4 * ((1461 * r) / 4 + e) + 3) / 1461 == r
  {
    var n := 4 * ((1461 * r) / 4 + e) + 3;
    assert 4 * ((1461 * r) / 4) == 1461 * r - r % 4;
    assert 1461 * r <= n < 1461 * r + 1461;
  }

  /** A March-based year ending in a leap day is every fourth, and of the last in a span every fourth. */
  lemma LeapPlace(y: int)
    requires y >= 0 && IsLeap(y + 1 - 4800)
    ensures (y % 100) % 4 == 3 && (y % 100 == 99 ==> (y / 100) % 4 == 3)
  {
  }

  /** ... which is where the spans have room for it. */
  lemma SpansFit(b: int, r: int, e: int, leap: bool)
    requires b >= 0 && 0 <= r < 100 && 0 <= e < (if leap then 366 else 365)
    requires leap ==> r % 4 == 3 && (r == 99 ==> b % 4 == 3)
    ensures 4 * e + 3 - r % 4 < 1461
    ensures 4 * ((1461 * r) / 4 + e) + 3 - b % 4 < 146097
  {
  }

  /** `Civil`'s last division recovers the month. */
  lemma FindsMonth(m: int, day: int)
    requires 0 <= m <= 11 && 1 <= day <= (if m == 11 then 29 else DaysBefore(m + 1) - DaysBefore(m))
    ensures (5 * (DaysBefore(m) + day - 1) + 2) / 153 == m
  {
  }

  lemma DateIsDayOfYear(ymd: YearMonthDay)
    requires InRange(ymd)
    ensures DayOfYear(MarchYear(ymd), DaysBefore(MarchMonth(ymd.month)) + ymd.day - 1)
    ensures 1 <= ymd.day <= (if MarchMonth(ymd.month) == 11 then 29
                             else DaysBefore(MarchMonth(ymd.month) + 1) - DaysBefore(MarchMonth(ymd.month)))
  {
  }

  /** `Civil` step by step, where every dividend is non-negative. */
  lemma CivilSteps(n: int, b: int, c: int, d: int, e: int, m: int)
    requires n >= FIRST_DAY && b == (4 * (n - FIRST_DAY) + 3) / 146097
    requires c == n - FIRST_DAY - (b * 146097) / 4 && c >= 0
    requires d == (4 * c + 3) / 1461 && e == c - (1461 * d) / 4 && e >= 0
    requires m == (5 * e + 2) / 153
    ensures Civil(n) == YearMonthDay(b * 100 + d - 4800 + m / 10, m + 3 - 12 * (m / 10), e - DaysBefore(m) + 1)
  {
    CenturyDivs(n + 32044, b, c);
    CenturyStep(n, b, c);
    YearDivs(c, d, e);
    YearStep(b, c, d, e);
    MonthStep(b, d, e, m);
  }

  lemma CenturyDivs(a: int, b: int, c: int)
    requires a >= 0 && b == (4 * a + 3) / 146097 && c == a - (b * 146097) / 4
    ensures b == CDiv(4 * a + 3, 146097) && c == a - CDiv(b * 146097, 4)
  {
    CDivNat(4 * a + 3, 146097);
    CDivNat(b * 146097, 4);
  }

  lemma CenturyStep(n: int, b: int, c: int)
    requires b == CDiv(4 * (n + 32044) + 3, 146097) && c == n + 32044 - CDiv(b * 146097, 4)
    ensures Civil(n) == CivilInCentury(b, c)
  {
  }

  lemma YearDivs(c: int, d: int, e: int)
    requires c >= 0 && d == (4 * c + 3) / 1461 && e == c - (1461 * d) / 4
    ensures d == CDiv(4 * c + 3, 1461) && e == c - CDiv(1461 * d, 4)
  {
    CDivNat(4 * c + 3, 1461);
    CDivNat(1461 * d, 4);
  }

  lemma YearStep(b: int, c: int, d: int, e: int)
    requires d == CDiv(4 * c + 3, 1461) && e == c - CDiv(1461 * d, 4)
    ensures CivilInCentury(b, c) == CivilInYear(b, d, e)
  {
  }

  lemma MonthStep(b: int, d: int, e: int, m: int)
    requires e >= 0 && m == (5 * e + 2) / 153
    ensures CivilInYear(b, d, e)
         == YearMonthDay(b * 100 + d - 4800 + m / 10, m + 3 - 12 * (m / 10), e - DaysBefore(m) + 1)
  {
    CDivNat(5 * e + 2, 153);
    CDivNat(153 * m + 2, 5);
    CDivNat(m, 10);
  }

  lemma CDivNat(a: int, b: int)
    requires a >= 0 && b > 0
    ensures CDiv(a, b) == a / b
  {
  }

  /** `Civil` in terms of the March-based year and day. */
  lemma CivilOfDay(y: int, e: int, m: int, n: int)
    requires DayOfYear(y, e) && m == (5 * e + 2) / 153 && n == FIRST_DAY + YearStart(y) + e
    ensures Civil(n) == YearMonthDay(y - 4800 + m / 10, m + 3 - 12 * (m / 10), e - DaysBefore(m) + 1)
  {
    var b, r := y / 100, y % 100;
    Spans(y);
    if IsLeap(y + 1 - 4800) {
      LeapPlace(y);
    }
    SpansFit(b, r, e, IsLeap(y + 1 - 4800));
    var c := (1461 * r) / 4 + e;
    FindsCentury(b, c);
    FindsYearOfCentury(r, e);
    CivilSteps(n, b, c, r, e, m);
  }

  /** From a date to its number and back. */
  lemma CivilOfNumber(ymd: YearMonthDay)
    requires InRange(ymd)
    ensures Civil(NumberOf(ymd)) == ymd
  {
    NumberFromMarch(ymd);
    DateIsDayOfYear(ymd);
    var m := MarchMonth(ymd.month);
    FindsMonth(m, ymd.day);
    CivilOfDay(MarchYear(ymd), DaysBefore(m) + ymd.day - 1, m, NumberOf(ymd));
    MarchBack(ymd.month);
  }

  /** The month and the year's shift are recovered from the March-based month. */
  lemma MarchBack(month: int)
    requires 1 <= month <= 12
    ensures var m := MarchMonth(month); m / 10 == (if month >= 3 then 0 else 1) && m + 3 - 12 * (m / 10) == month
  {
  }

  lemma FirstDate()
    ensures InRange(YearMonthDay(-4800, 3, 1)) && NumberOf(YearMonthDay(-4800, 3, 1)) == FIRST_DAY
  {
  }

  /** Every number from the first day on is the number of a date. */
  lemma {:induction false} NumberIsDate(n: int) returns (ymd: YearMonthDay)
    requires n >= FIRST_DAY
    ensures InRange(ymd) && NumberOf(ymd) == n
    decreases n - FIRST_DAY
  {
    if n == FIRST_DAY {
      FirstDate();
      ymd := YearMonthDay(-4800, 3, 1);
    } else {
      var before := NumberIsDate(n - 1);
      ymd := DayAfter(before);
    }
  }

  lemma DayAfter(before: YearMonthDay) returns (ymd: YearMonthDay)
    requires InRange(before)
    ensures InRange(ymd) && NumberOf(ymd) == NumberOf(before) + 1
  {
    NextDayNextNumber(before);
    ymd := NextDay(before);
  }

  /** From a number to its date and back. */
  lemma NumberOfCivil(n: int)
    requires n >= FIRST_DAY
    ensures InRange(Civil(n)) && NumberOf(Civil(n)) == n
  {
    var ymd := NumberIsDate(n);
    CivilOfNumber(ymd);
  }

  // ---------- 32-bit range ----------

  predicate IsInt32(x: int) {
    -0x8000_0000 <= x < 0x8000_0000
  }

  /** The last day number whose conversion stays within 32-bit arithmetic. */
  const LAST_DAY := 536870911 - 32044

  /** Everything `Civil` computes on the way fits an `int`. */
  predicate CivilFits(n: int) {
    var a := n + 32044;
    var b := CDiv(4 * a + 3, 146097);
    var c := a - CDiv(b * 146097, 4);
    var d := CDiv(4 * c + 3, 1461);
    var e := c - CDiv(1461 * d, 4);
    && IsInt32(a) && IsInt32(4 * a) && IsInt32(4 * a + 3) && IsInt32(b * 146097) && IsInt32(c) && IsInt32(4 * c + 3)
    && IsInt32(1461 * d) && IsInt32(5 * e + 2) && IsInt32(b * 100 + d)
  }

  lemma CivilFitsIff(n: int)
    requires n >= FIRST_DAY
    ensures CivilFits(n) <==> n <= LAST_DAY
  {
  }
}
