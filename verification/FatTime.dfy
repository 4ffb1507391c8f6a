/** Calendar arithmetic of the firmware (src/fat_time.cpp): Hinnant's two algorithms, the FAT
    two-second stamp, the FTP time-val and the Windows FILETIME. */
module Calendar {
  import opened Modulus

  /** C++ integer division and remainder truncate toward zero. */
  function TruncDiv(a: int, b: int): int
    requires 0 < b
  {
    if a >= 0 then a / b else -((-a) / b)
  }

  function TruncMod(a: int, b: int): int
    requires 0 < b
  {
    a - b * TruncDiv(a, b)
  }

  predicate LeapYear(year: int) {
    (TruncMod(year, 4) == 0 && TruncMod(year, 100) != 0) || TruncMod(year, 400) == 0
  }

  function DaysInMonth(year: int, month: int): (days: int)
    requires 1 <= month <= 12
    ensures 28 <= days <= 31
  {
    if month == 2 && LeapYear(year) then 29
    else [31, 28, 31, 30, 31, 30, 31, 31, 30, 31, 30, 31][month - 1]
  }

  predicate ValidDate(year: int, month: int, day: int) {
    1 <= month <= 12 && 1 <= day <= DaysInMonth(year, month)
  }

  // ----- The reference: counting days one month and one year at a time -----

  function YearLength(year: int): int {
    if LeapYear(year) then 366 else 365
  }

  /** Days from 1 January 1970 to 1 January of the year. */
  function YearStart(year: int): int
    decreases if year >= 1970 then year - 1970 else 1970 - year
  {
    if year == 1970 then 0
    else if year > 1970 then YearStart(year - 1) + YearLength(year - 1)
    else YearStart(year + 1) - YearLength(year)
  }

  function MonthStart(year: int, month: int): int
    requires 1 <= month <= 12
  {
    if month == 1 then 0 else MonthStart(year, month - 1) + DaysInMonth(year, month - 1)
  }

  function DayCount(year: int, month: int, day: int): int
    requires 1 <= month <= 12
  {
    YearStart(year) + MonthStart(year, month) + day - 1
  }

  // ----- daysFromCivil -----

  function EraOf(year: int): int {
    TruncDiv(if year >= 0 then year else year - 399, 400)
  }

  function DaysFromCivil(year: int, month: int, day: int): int {
    var y := if month <= 2 then year - 1 else year;
    var era := EraOf(y);
    var yearOfEra := y - era * 400;
    var shiftedMonth := if month > 2 then month - 3 else month + 9;
    var dayOfYear := (153 * shiftedMonth + 2) / 5 + day - 1;
    var dayOfEra := yearOfEra * 365 + yearOfEra / 4 - yearOfEra / 100 + dayOfYear;
    era * 146097 + dayOfEra - 719468
  }

  lemma EraIsFloor(year: int)
    ensures EraOf(year) == year / 400 && 0 <= year - EraOf(year) * 400 < 400
  {
  }

  lemma LeapIsFloor(year: int)
    ensures LeapYear(year) <==> (year % 4 == 0 && year % 100 != 0) || year % 400 == 0
  {
  }

  /** Days from the first of March of year 0 to the first of March of y. */
  function MarchStart(y: int): int {
    365 * y + y / 4 - y / 100 + y / 400
  }

  lemma EraFormIsMarchStart(y: int)
    ensures var era := EraOf(y); var yoe := y - era * 400;
      era * 146097 + yoe * 365 + yoe / 4 - yoe / 100 == MarchStart(y)
  {
    EraIsFloor(y);
    var era := EraOf(y);
    var yoe := y - era * 400;
    assert y / 4 == era * 100 + yoe / 4;
    assert y / 100 == era * 4 + yoe / 100;
  }

  lemma DivStep(y: int, d: int)
    requires 1 < d
    ensures (y + 1) / d == y / d + (if (y + 1) % d == 0 then 1 else 0)
  {
    var q, r := y / d, y % d;
    if r == d - 1 {
      assert y + 1 == d * (q + 1);
      DivModUnique(y + 1, d, q + 1, 0);
    } else {
      DivModUnique(y + 1, d, q, r + 1);
    }
  }

  lemma MultiplesNest(y: int)
    ensures y % 400 == 0 ==> y % 100 == 0
    ensures y % 100 == 0 ==> y % 4 == 0
  {
  }

  lemma MarchStartStep(y: int)
    ensures MarchStart(y + 1) - MarchStart(y) == YearLength(y + 1)
  {
    LeapIsFloor(y + 1);
    MultiplesNest(y + 1);
    DivStep(y, 4);
    DivStep(y, 100);
    DivStep(y, 400);
    MarchStartSum(y, y / 4, y / 100, y / 400);
  }

  lemma MarchStartSum(y: int, fours: int, hundreds: int, fourHundreds: int)
    requires fours == y / 4 && hundreds == y / 100 && fourHundreds == y / 400
    ensures MarchStart(y) == 365 * y + fours - hundreds + fourHundreds
  {
  }

  lemma {:induction false} YearStartIsMarchStart(year: int)
    ensures YearStart(year) == MarchStart(year - 1) + 306 - 719468
    decreases if year >= 1970 then year - 1970 else 1970 - year
  {
    if year > 1970 {
      YearStartIsMarchStart(year - 1);
      MarchStartStep(year - 2);
    } else if year < 1970 {
      YearStartIsMarchStart(year + 1);
      MarchStartStep(year - 1);
    }
  }

  /** Hinnant's shifted-month formula counts the days of the months since March. */
  lemma ShiftedMonthCounts(year: int, month: int)
    requires 1 <= month <= 12
    ensures month > 2 ==> MonthStart(year, month) == 59 + (YearLength(year) - 365) + (153 * (month - 3) + 2) / 5
    ensures month <= 2 ==> MonthStart(year, month) == (153 * (month + 9) + 2) / 5 - 306
  {
    assert MonthStart(year, 2) == 31;
    assert MonthStart(year, 3) == 59 + (YearLength(year) - 365);
    assert MonthStart(year, 4) == MonthStart(year, 3) + 31;
    assert MonthStart(year, 5) == MonthStart(year, 4) + 30;
    assert MonthStart(year, 6) == MonthStart(year, 5) + 31;
    assert MonthStart(year, 7) == MonthStart(year, 6) + 30;
    assert MonthStart(year, 8) == MonthStart(year, 7) + 31;
    assert MonthStart(year, 9) == MonthStart(year, 8) + 31;
    assert MonthStart(year, 10) == MonthStart(year, 9) + 30;
    assert MonthStart(year, 11) == MonthStart(year, 10) + 31;
    assert MonthStart(year, 12) == MonthStart(year, 11) + 30;
  }

  /** daysFromCivil is the day count by definition, for every year, before and after 1970. */
  lemma DaysFromCivilIsDayCount(year: int, month: int, day: int)
    requires 1 <= month <= 12
    ensures DaysFromCivil(year, month, day) == DayCount(year, month, day)
  {
    var y := if month <= 2 then year - 1 else year;
    var shiftedMonth := if month > 2 then month - 3 else month + 9;
    DaysFromCivilIsMarchBased(year, month, day);
    YearStartIsMarchStart(year);
    MarchStartStep(year - 1);
    ShiftedMonthCounts(year, month);
    assert DaysFromCivil(year, month, day) == MarchStart(y) + (153 * shiftedMonth + 2) / 5 + day - 1 - 719468;
  }

  lemma DaysFromCivilIsMarchBased(year: int, month: int, day: int)
    ensures var y := if month <= 2 then year - 1 else year;
      var shiftedMonth := if month > 2 then month - 3 else month + 9;
      DaysFromCivil(year, month, day) == MarchStart(y) + (153 * shiftedMonth + 2) / 5 + day - 1 - 719468
  {
    EraFormIsMarchStart(if month <= 2 then year - 1 else year);
  }

  // ----- civilFromDays -----

  datatype Date = Date(year: int, month: int, day: int)

  function DayEra(days: int): int {
    TruncDiv(if days >= 0 then days else days - 146096, 146097)
  }

  function YearOfEra(dayOfEra: int): int {
    (dayOfEra - dayOfEra / 1460 + dayOfEra / 36524 - dayOfEra / 146096) / 365
  }

  /** The month and day of a day counted from the first of March. */
  function DateOfMarchYear(marchYear: int, dayOfYear: int): Date {
    var shiftedMonth := (5 * dayOfYear + 2) / 153;
    var day := dayOfYear - (153 * shiftedMonth + 2) / 5 + 1;
    var month := if shiftedMonth < 10 then shiftedMonth + 3 else shiftedMonth - 9;
    Date(marchYear + (if month <= 2 then 1 else 0), month, day)
  }

  function CivilFromDays(days: int): Date {
    var shifted := days + 719468;
    var era := DayEra(shifted);
    var dayOfEra := shifted - era * 146097;
    DateOfEra(era, dayOfEra, YearOfEra(dayOfEra))
  }

  function DateOfEra(era: int, dayOfEra: int, yearOfEra: int): Date {
    var dayOfYear := dayOfEra - (365 * yearOfEra + yearOfEra / 4 - yearOfEra / 100);
    DateOfMarchYear(yearOfEra + era * 400, dayOfYear)
  }

  lemma DayEraIsFloor(days: int)
    ensures DayEra(days) == days / 146097 && 0 <= days - DayEra(days) * 146097 < 146097
  {
  }

  /** A day of an era is a century, a four-year cycle, a year and a day; the last day of the era
      belongs to its last year. */
  ghost predicate Splits(dayOfEra: int, c: int, q: int, r: int, d: int) {
    && 0 <= c <= 3 && 0 <= q <= 24 && 0 <= r <= 3 && 0 <= d <= 365
    && dayOfEra == 36524 * c + 1461 * q + 365 * r + d
    && (d == 365 ==> r == 3 && (q < 24 || c == 3))
  }

  lemma SplitExists(dayOfEra: int) returns (c: int, q: int, r: int, d: int)
    requires 0 <= dayOfEra < 146097
    ensures Splits(dayOfEra, c, q, r, d)
  {
    c := if dayOfEra / 36524 < 4 then dayOfEra / 36524 else 3;
    var inCentury := dayOfEra - 36524 * c;
    q := inCentury / 1461;
    var inCycle := inCentury - 1461 * q;
    r := if inCycle / 365 < 4 then inCycle / 365 else 3;
    d := inCycle - 365 * r;
  }

  lemma YearOfSplit(dayOfEra: int, c: int, q: int, r: int, d: int)
    requires Splits(dayOfEra, c, q, r, d)
    ensures var y := 100 * c + 4 * q + r; YearOfEra(dayOfEra) == y && dayOfEra == 365 * y + y / 4 - y / 100 + d
  {
    var y := 100 * c + 4 * q + r;
    FourYearsOfSplit(dayOfEra, c, q, r, d);
    CenturiesOfSplit(dayOfEra, c, q, r, d);
    DivModUnique(dayOfEra - dayOfEra / 1460 + c, 365, y, d - ExtraDay(c, q, r, d));
    DivModUnique(y, 4, 25 * c + q, r);
    DivModUnique(y, 100, c, 4 * q + r);
  }

  /** 1 when the division by 1460 counts the last day of a four-year cycle as a cycle of its own. */
  function ExtraDay(c: int, q: int, r: int, d: int): int {
    if 24 * c + q + 365 * r + d < 1460 then 0 else 1
  }

  lemma FourYearsOfSplit(dayOfEra: int, c: int, q: int, r: int, d: int)
    requires Splits(dayOfEra, c, q, r, d)
    ensures dayOfEra / 1460 == 25 * c + q + ExtraDay(c, q, r, d) && 0 <= d - ExtraDay(c, q, r, d) < 365
  {
    var extra := ExtraDay(c, q, r, d);
    DivModUnique(dayOfEra, 1460, 25 * c + q + extra, 24 * c + q + 365 * r + d - 1460 * extra);
  }

  lemma CenturiesOfSplit(dayOfEra: int, c: int, q: int, r: int, d: int)
    requires Splits(dayOfEra, c, q, r, d)
    ensures dayOfEra / 36524 - dayOfEra / 146096 == c
  {
    var rest := 1461 * q + 365 * r + d;
    if rest == 36524 {
      DivModUnique(dayOfEra, 36524, 4, 0);
      DivModUnique(dayOfEra, 146096, 1, 0);
    } else {
      DivModUnique(dayOfEra, 36524, c, rest);
      DivModUnique(dayOfEra, 146096, 0, dayOfEra);
    }
  }

  /** The month formula on a day of the March year. */
  lemma MonthOfDay(dayOfYear: int)
    requires 0 <= dayOfYear <= 365
    ensures var m := (5 * dayOfYear + 2) / 153; var first := (153 * m + 2) / 5;
      0 <= m <= 11 && first <= dayOfYear < (153 * (m + 1) + 2) / 5 && (m == 11 ==> dayOfYear - first <= 28)
  {
  }

  lemma SplitLeap(era: int, c: int, q: int, r: int)
    requires 0 <= c <= 3 && 0 <= q <= 24 && 0 <= r <= 3
    ensures LeapYear(era * 400 + 100 * c + 4 * q + r + 1) <==> r == 3 && (q < 24 || c == 3)
  {
    var y := era * 400 + 100 * c + 4 * q + r + 1;
    LeapIsFloor(y);
    if r < 3 {
      DivModUnique(y, 4, 100 * era + 25 * c + q, r + 1);
      MultiplesNest(y);
    } else if q < 24 {
      DivModUnique(y, 4, 100 * era + 25 * c + q + 1, 0);
      DivModUnique(y, 100, 4 * era + c, 4 * q + 4);
    } else if c < 3 {
      DivModUnique(y, 100, 4 * era + c + 1, 0);
      DivModUnique(y, 400, era, 100 * (c + 1));
    } else {
      DivModUnique(y, 400, era + 1, 0);
    }
  }

  lemma ShiftedMonthLength(year: int, m: int)
    requires 0 <= m <= 11
    ensures var month := if m < 10 then m + 3 else m - 9;
      (m < 11 ==> DaysInMonth(year, month) == (153 * (m + 1) + 2) / 5 - (153 * m + 2) / 5)
      && (m == 11 ==> DaysInMonth(year, month) == if LeapYear(year) then 29 else 28)
  {
  }

  lemma CivilOfSplit(days: int, era: int, c: int, q: int, r: int, d: int)
    requires era == DayEra(days + 719468) && Splits(days + 719468 - era * 146097, c, q, r, d)
    ensures CivilFromDays(days) == DateOfMarchYear(era * 400 + 100 * c + 4 * q + r, d)
  {
    hide YearOfEra, DateOfEra, DateOfMarchYear, DayEra;
    var dayOfEra, y := days + 719468 - era * 146097, 100 * c + 4 * q + r;
    YearOfSplit(dayOfEra, c, q, r, d);
    assert CivilFromDays(days) == DateOfEra(era, dayOfEra, y);
    DateOfEraYear(era, dayOfEra, y, d);
    assert y + era * 400 == era * 400 + 100 * c + 4 * q + r;
  }

  lemma DateOfEraYear(era: int, dayOfEra: int, y: int, d: int)
    requires dayOfEra == 365 * y + y / 4 - y / 100 + d
    ensures DateOfEra(era, dayOfEra, y) == DateOfMarchYear(y + era * 400, d)
  {
  }

  lemma DayNumberOfSplit(days: int, era: int, c: int, q: int, r: int, d: int)
    requires Splits(days + 719468 - era * 146097, c, q, r, d)
    ensures days == MarchStart(era * 400 + 100 * c + 4 * q + r) + d - 719468
  {
    var y := era * 400 + 100 * c + 4 * q + r;
    YearOfSplit(days + 719468 - era * 146097, c, q, r, d);
    EraIsFloor(y);
    DivModUnique(y, 400, era, 100 * c + 4 * q + r);
    EraFormIsMarchStart(y);
  }

  lemma MonthPartIsValid(era: int, c: int, q: int, r: int, d: int)
    requires Splits(36524 * c + 1461 * q + 365 * r + d, c, q, r, d)
    ensures var date := DateOfMarchYear(era * 400 + 100 * c + 4 * q + r, d); ValidDate(date.year, date.month, date.day)
  {
    var m := (5 * d + 2) / 153;
    var y := era * 400 + 100 * c + 4 * q + r;
    MonthOfDay(d);
    ShiftedMonthLength(if m < 10 then y else y + 1, m);
    SplitLeap(era, c, q, r);
  }

  lemma DayNumberOfMarchYear(y: int, d: int)
    requires 0 <= d <= 365
    ensures var date := DateOfMarchYear(y, d); DaysFromCivil(date.year, date.month, date.day) == MarchStart(y) + d - 719468
  {
    MonthOfDay(d);
    var date := DateOfMarchYear(y, d);
    DaysFromCivilIsMarchBased(date.year, date.month, date.day);
  }

  /** civilFromDays always yields a real date, and it is the date with that day number. */
  lemma CivilFromDaysIsInverse(days: int)
    ensures var date := CivilFromDays(days);
      ValidDate(date.year, date.month, date.day) && DaysFromCivil(date.year, date.month, date.day) == days
  {
    hide CivilFromDays, DaysFromCivil, DateOfMarchYear, DayEra, MarchStart, ValidDate, LeapYear, DaysInMonth;
    DayEraIsFloor(days + 719468);
    var era := DayEra(days + 719468);
    var c, q, r, d := SplitExists(days + 719468 - era * 146097);
    CivilOfSplit(days, era, c, q, r, d);
    MonthPartIsValid(era, c, q, r, d);
    DayNumberOfSplit(days, era, c, q, r, d);
    DayNumberOfMarchYear(era * 400 + 100 * c + 4 * q + r, d);
  }

  /** Day numbers grow with the date: a year, a month or a day later is a larger number. */
  lemma DaysOfYearBounded(year: int, month: int, day: int)
    requires ValidDate(year, month, day)
    ensures YearStart(year) <= DayCount(year, month, day) < YearStart(year) + YearLength(year)
  {
    ShiftedMonthCounts(year, month);
  }

  lemma {:induction false} YearStartGrows(a: int, b: int)
    requires a < b
    ensures YearStart(a) + YearLength(a) <= YearStart(b)
    decreases b - a
  {
    YearStartIsMarchStart(b);
    YearStartIsMarchStart(b - 1);
    MarchStartStep(b - 2);
    if a < b - 1 {
      YearStartGrows(a, b - 1);
    }
  }

  lemma {:induction false} MonthStartGrows(year: int, a: int, b: int)
    requires 1 <= a < b <= 12
    ensures MonthStart(year, a) + DaysInMonth(year, a) <= MonthStart(year, b)
    decreases b - a
  {
    if a < b - 1 {
      MonthStartGrows(year, a, b - 1);
    }
  }

  lemma DayCountIsInjective(a: Date, b: Date)
    requires ValidDate(a.year, a.month, a.day) && ValidDate(b.year, b.month, b.day)
    requires DayCount(a.year, a.month, a.day) == DayCount(b.year, b.month, b.day)
    ensures a == b
  {
    DaysOfYearBounded(a.year, a.month, a.day);
    DaysOfYearBounded(b.year, b.month, b.day);
    if a.year < b.year { YearStartGrows(a.year, b.year); }
    if b.year < a.year { YearStartGrows(b.year, a.year); }
    if a.month < b.month { MonthStartGrows(a.year, a.month, b.month); }
    if b.month < a.month { MonthStartGrows(a.year, b.month, a.month); }
  }

  /** Both ways round: every real date survives the trip through its day number. */
  lemma DateRoundTrip(year: int, month: int, day: int)
    requires ValidDate(year, month, day)
    ensures CivilFromDays(DaysFromCivil(year, month, day)) == Date(year, month, day)
  {
    var days := DaysFromCivil(year, month, day);
    var date := CivilFromDays(days);
    CivilFromDaysIsInverse(days);
    DaysFromCivilIsDayCount(year, month, day);
    DaysFromCivilIsDayCount(date.year, date.month, date.day);
    DayCountIsInjective(date, Date(year, month, day));
  }
}

/** The conversions between civil time and the stamps of FAT, FTP and Windows. */
module FatTime {
  import opened BitFields
  import opened Common
  import opened Calendar
  import opened Modulus

  datatype DateTime = DateTime(date: Date, hour: int, minute: int, second: int)

  const SECONDS_PER_DAY := 86400

  predicate ValidClock(hour: int, minute: int, second: int) {
    0 <= hour <= 23 && 0 <= minute <= 59 && 0 <= second <= 59
  }

  predicate ValidCivil(c: DateTime) {
    && 1 <= c.date.year <= 9999 && ValidDate(c.date.year, c.date.month, c.date.day)
    && ValidClock(c.hour, c.minute, c.second)
  }

  /** A date of the Gregorian calendar, by its own rules. */
  predicate RealDate(year: int, month: int, day: int) {
    && 1 <= month <= 12 && 1 <= day
    && day <= (if month == 4 || month == 6 || month == 9 || month == 11 then 30
               else if month != 2 then 31
               else if year % 4 == 0 && (year % 100 != 0 || year % 400 == 0) then 29 else 28)
  }

  lemma RealDateIs(year: int, month: int, day: int)
    ensures ValidDate(year, month, day) <==> RealDate(year, month, day)
  {
    hide LeapYear;
    LeapIsFloor(year);
    FourDivides(year);
  }

  lemma FourDivides(year: int)
    ensures year % 400 == 0 ==> year % 4 == 0
  {
    assert year % 400 == 0 ==> year == 4 * (100 * (year / 400));
  }

  /** floorDiv() of the source: truncating division corrected for negative values. */
  function FloorDiv(value: int, divisor: int): int
    requires 0 < divisor
  {
    var quotient := TruncDiv(value, divisor);
    if TruncMod(value, divisor) != 0 && value < 0 then quotient - 1 else quotient
  }

  lemma FloorDivIsFloor(value: int)
    ensures FloorDiv(value, SECONDS_PER_DAY) == value / SECONDS_PER_DAY
  {
  }

  function CivilToUnix(c: DateTime): int {
    DaysFromCivil(c.date.year, c.date.month, c.date.day) * SECONDS_PER_DAY + c.hour * 3600 + c.minute * 60 + c.second
  }

  function UnixToCivil(unixSeconds: int): DateTime {
    var days := FloorDiv(unixSeconds, SECONDS_PER_DAY);
    var rest := unixSeconds - days * SECONDS_PER_DAY;
    DateTime(CivilFromDays(days), rest / 3600, rest % 3600 / 60, rest % 60)
  }

  lemma ClockParts(rest: int)
    requires 0 <= rest < SECONDS_PER_DAY
    ensures ValidClock(rest / 3600, rest % 3600 / 60, rest % 60)
    ensures rest / 3600 * 3600 + rest % 3600 / 60 * 60 + rest % 60 == rest
  {
  }

  lemma ClockIsUnique(hour: int, minute: int, second: int)
    requires ValidClock(hour, minute, second)
    ensures var rest := hour * 3600 + minute * 60 + second;
      0 <= rest < SECONDS_PER_DAY && rest / 3600 == hour && rest % 3600 / 60 == minute && rest % 60 == second
  {
    DivModUnique(hour * 3600 + minute * 60 + second, 3600, hour, minute * 60 + second);
    DivModUnique(minute * 60 + second, 60, minute, second);
    DivModUnique(hour * 3600 + minute * 60 + second, 60, hour * 60 + minute, second);
  }

  /** Every second has a real date and time of day, and it is the second they name. */
  lemma UnixRoundTrip(unixSeconds: int)
    ensures var c := UnixToCivil(unixSeconds);
      && ValidDate(c.date.year, c.date.month, c.date.day) && ValidClock(c.hour, c.minute, c.second)
      && CivilToUnix(c) == unixSeconds
  {
    hide DaysFromCivil, CivilFromDays, FloorDiv;
    FloorDivIsFloor(unixSeconds);
    var days := FloorDiv(unixSeconds, SECONDS_PER_DAY);
    CivilFromDaysIsInverse(days);
    ClockParts(unixSeconds - days * SECONDS_PER_DAY);
  }

  lemma CivilRoundTrip(c: DateTime)
    requires ValidDate(c.date.year, c.date.month, c.date.day) && ValidClock(c.hour, c.minute, c.second)
    ensures UnixToCivil(CivilToUnix(c)) == c
  {
    hide DaysFromCivil, CivilFromDays, FloorDiv;
    var days := DaysFromCivil(c.date.year, c.date.month, c.date.day);
    var rest := c.hour * 3600 + c.minute * 60 + c.second;
    ClockIsUnique(c.hour, c.minute, c.second);
    FloorDivIsFloor(CivilToUnix(c));
    DivModUnique(CivilToUnix(c), SECONDS_PER_DAY, days, rest);
    DateRoundTrip(c.date.year, c.date.month, c.date.day);
  }

  // ----- FAT stamps -----

  type Word = x: int | 0 <= x < 0x1_0000

  /** date packs year, month, day into 7, 4, 5 bits; time packs hour, minute, second / 2 into 5, 6, 5. */
  datatype FatStamp = FatStamp(date: Word, time: Word)

  function StampFields(stamp: FatStamp): DateTime {
    DateTime(Date(1980 + Right(stamp.date, 9), And(Right(stamp.date, 5), 0x0F), And(stamp.date, 0x1F)),
             Right(stamp.time, 11), And(Right(stamp.time, 5), 0x3F), And(stamp.time, 0x1F) * 2)
  }

  /** A date of 0 means that the entry has no stamp. */
  predicate ValidStamp(stamp: FatStamp) {
    stamp.date != 0 && ValidCivil(StampFields(stamp))
  }

  function FatStampToUnix(stamp: FatStamp, timezoneSeconds: int): Option<int> {
    if !ValidStamp(stamp) then None else Some(CivilToUnix(StampFields(stamp)) - timezoneSeconds)
  }

  function PackStamp(c: DateTime): FatStamp
    requires 1980 <= c.date.year <= 2107 && ValidCivil(c)
  {
    FatStamp(Or(Or(Left(c.date.year - 1980, 9), Left(c.date.month, 5)), c.date.day) % 0x1_0000,
             Or(Or(Left(c.hour, 11), Left(c.minute, 5)), c.second / 2) % 0x1_0000)
  }

  /** Shifts and masks read the fields by division. */
  lemma FieldsAreDigits(stamp: FatStamp)
    ensures StampFields(stamp)
         == DateTime(Date(1980 + stamp.date / 512, stamp.date / 32 % 16, stamp.date % 32),
                     stamp.time / 2048, stamp.time / 32 % 64, stamp.time % 32 * 2)
  {
    hide Right, And, Power;
    Powers();
    RightIsQuotient(stamp.date, 9);
    RightIsQuotient(stamp.date, 5);
    RightIsQuotient(stamp.time, 11);
    RightIsQuotient(stamp.time, 5);
    MaskIsRemainder(stamp.date / 32, 4);
    MaskIsRemainder(stamp.date, 5);
    MaskIsRemainder(stamp.time / 32, 6);
    MaskIsRemainder(stamp.time, 5);
  }

  /** The fields of a stamp do not overlap, so the or of the shifted fields is their sum, and no bit
      of it is cut off. */
  lemma PackedIsSum(c: DateTime)
    requires 1980 <= c.date.year <= 2107 && ValidCivil(c)
    ensures PackStamp(c)
         == FatStamp((c.date.year - 1980) * 512 + c.date.month * 32 + c.date.day, c.hour * 2048 + c.minute * 32 + c.second / 2)
  {
    hide Or, Power;
    Powers();
    ThreeFields(c.date.year - 1980, c.date.month, c.date.day, 9, 5);
    ThreeFields(c.hour, c.minute, c.second / 2, 11, 5);
  }

  function UnixToFatStamp(unixSeconds: int, timezoneSeconds: int): Option<FatStamp> {
    var c := UnixToCivil(unixSeconds + timezoneSeconds);
    if c.date.year < 1980 || c.date.year > 2107 then None
    else
      assert ValidCivil(c) by { UnixRoundTrip(unixSeconds + timezoneSeconds); }
      Some(PackStamp(c))
  }

  lemma PackedFields(c: DateTime)
    requires 1980 <= c.date.year <= 2107 && ValidCivil(c)
    ensures ValidStamp(PackStamp(c)) && StampFields(PackStamp(c)) == c.(second := c.second / 2 * 2)
  {
    hide PackStamp, StampFields;
    PackedIsSum(c);
    FieldsAreDigits(PackStamp(c));
    var date := (c.date.year - 1980) * 512 + c.date.month * 32 + c.date.day;
    DivModUnique(date, 512, c.date.year - 1980, c.date.month * 32 + c.date.day);
    DivModUnique(date, 32, (c.date.year - 1980) * 16 + c.date.month, c.date.day);
    DivModUnique((c.date.year - 1980) * 16 + c.date.month, 16, c.date.year - 1980, c.date.month);
    var time := c.hour * 2048 + c.minute * 32 + c.second / 2;
    DivModUnique(time, 2048, c.hour, c.minute * 32 + c.second / 2);
    DivModUnique(time, 32, c.hour * 64 + c.minute, c.second / 2);
    DivModUnique(c.hour * 64 + c.minute, 64, c.hour, c.minute);
  }

  lemma FieldsRepack(stamp: FatStamp)
    requires ValidStamp(stamp)
    ensures 1980 <= StampFields(stamp).date.year <= 2107 && PackStamp(StampFields(stamp)) == stamp
  {
    hide PackStamp, StampFields;
    FieldsAreDigits(stamp);
    PackedIsSum(StampFields(stamp));
    assert stamp.date / 32 == stamp.date / 512 * 16 + stamp.date / 32 % 16;
    assert stamp.time / 32 == stamp.time / 2048 * 64 + stamp.time / 32 % 64;
  }

  /** A stamp has a Unix time exactly when its fields are a real date and a time of day. */
  lemma StampAcceptedIff(stamp: FatStamp, timezoneSeconds: int)
    ensures FatStampToUnix(stamp, timezoneSeconds).Some?
      <==> RealDate(1980 + stamp.date / 512, stamp.date / 32 % 16, stamp.date % 32)
           && stamp.time / 2048 <= 23 && stamp.time / 32 % 64 <= 59 && stamp.time % 32 * 2 <= 59
  {
    hide StampFields, CivilToUnix, ValidDate;
    FieldsAreDigits(stamp);
    RealDateIs(1980 + stamp.date / 512, stamp.date / 32 % 16, stamp.date % 32);
  }

  /** FAT stamp to Unix time and back is the identity on valid stamps, in any time zone. */
  lemma StampRoundTrip(stamp: FatStamp, timezoneSeconds: int)
    requires ValidStamp(stamp)
    ensures FatStampToUnix(stamp, timezoneSeconds).Some?
    ensures UnixToFatStamp(FatStampToUnix(stamp, timezoneSeconds).value, timezoneSeconds) == Some(stamp)
  {
    hide StampFields, CivilToUnix, UnixToCivil, PackStamp;
    CivilRoundTrip(StampFields(stamp));
    FieldsRepack(stamp);
  }

  /** Unix time to FAT stamp and back loses exactly the parity of the local second, and fails
      exactly when the local time is outside the years 1980 to 2107. */
  lemma UnixStampRoundTrip(unixSeconds: int, timezoneSeconds: int)
    ensures var local := unixSeconds + timezoneSeconds;
      var stamp := UnixToFatStamp(unixSeconds, timezoneSeconds);
      && (stamp.Some? <==> YearStart(1980) * SECONDS_PER_DAY <= local < YearStart(2108) * SECONDS_PER_DAY)
      && (stamp.Some? ==> FatStampToUnix(stamp.value, timezoneSeconds) == Some(unixSeconds - local % 2))
  {
    hide StampFields, CivilToUnix, UnixToCivil, PackStamp, DaysFromCivil, YearStart, ValidStamp;
    var local := unixSeconds + timezoneSeconds;
    var c := UnixToCivil(local);
    UnixRoundTrip(local);
    DaysFromCivilIsDayCount(c.date.year, c.date.month, c.date.day);
    YearOfInstant(c);
    if 1980 <= c.date.year <= 2107 {
      PackedFields(c);
      EvenSecond(c, local);
    }
  }

  lemma EvenSecond(c: DateTime, local: int)
    requires local == CivilToUnix(c)
    ensures CivilToUnix(c.(second := c.second / 2 * 2)) == local - local % 2
  {
    assert local == 2 * (DaysFromCivil(c.date.year, c.date.month, c.date.day) * 43200 + c.hour * 1800 + c.minute * 30) + c.second;
  }

  /** A year boundary on the clock is a year boundary in the date. */
  lemma YearOfInstant(c: DateTime)
    requires ValidDate(c.date.year, c.date.month, c.date.day) && ValidClock(c.hour, c.minute, c.second)
    ensures 1980 <= c.date.year <= 2107 <==>
      YearStart(1980) * SECONDS_PER_DAY <= CivilToUnix(c) < YearStart(2108) * SECONDS_PER_DAY
  {
    var year := c.date.year;
    var days := DaysFromCivil(year, c.date.month, c.date.day);
    DaysFromCivilIsDayCount(year, c.date.month, c.date.day);
    DaysOfYearBounded(year, c.date.month, c.date.day);
    ClockIsUnique(c.hour, c.minute, c.second);
    if year < 1980 { YearStartGrows(year, 1980); }
    if 1980 < year { YearStartGrows(1980, year); YearLengthPositive(1980); }
    if year < 2108 { YearStartGrows(year, 2108); }
    if 2108 < year { YearStartGrows(2108, year); YearLengthPositive(2108); }
  }

  lemma YearLengthPositive(year: int)
    ensures 365 <= YearLength(year) <= 366
  {
  }

  // ----- Windows FILETIME -----

  const UNIX_EPOCH_FILE_TIME := 116_444_736_000_000_000
  const FILE_TIME_PER_SECOND := 10_000_000

  function UnixToFileTime(unixSeconds: int): nat {
    var value := unixSeconds * FILE_TIME_PER_SECOND + UNIX_EPOCH_FILE_TIME;
    if value > 0 then value else 0
  }

  /** 0 means "leave unchanged"; the two largest values are SET_INFO controls. */
  function FileTimeToUnix(fileTime: nat): Option<int> {
    if fileTime == 0 || fileTime >= 0xFFFF_FFFF_FFFF_FFFE || fileTime < UNIX_EPOCH_FILE_TIME then None
    else Some((fileTime - UNIX_EPOCH_FILE_TIME) / FILE_TIME_PER_SECOND)
  }

  /** A FILETIME is refused exactly before 1970 and for the two control values. */
  lemma FileTimeAcceptedIff(fileTime: nat)
    ensures FileTimeToUnix(fileTime).Some? <==> 116444736000000000 <= fileTime < 0xFFFF_FFFF_FFFF_FFFE
  {
  }

  /** As long as the product stays in a signed 64-bit integer, FILETIME to Unix undoes Unix to
      FILETIME exactly from 1970 on, and refuses every earlier time. */
  lemma FileTimeRoundTrip(unixSeconds: int)
    requires -0x8000_0000_0000_0000 <= unixSeconds * FILE_TIME_PER_SECOND + UNIX_EPOCH_FILE_TIME < 0x8000_0000_0000_0000
    ensures FileTimeToUnix(UnixToFileTime(unixSeconds)) == if unixSeconds >= 0 then Some(unixSeconds) else None
  {
    if unixSeconds >= 0 {
      DivModUnique(unixSeconds * FILE_TIME_PER_SECOND, FILE_TIME_PER_SECOND, unixSeconds, 0);
    }
  }

  /** In the other direction only the fraction of the second is lost. */
  lemma FileTimeFractionLost(fileTime: nat)
    requires FileTimeToUnix(fileTime).Some?
    ensures UnixToFileTime(FileTimeToUnix(fileTime).value) == fileTime - (fileTime - UNIX_EPOCH_FILE_TIME) % FILE_TIME_PER_SECOND
  {
  }
}
