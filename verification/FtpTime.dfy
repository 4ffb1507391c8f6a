/** Fixed-width decimal text. */
module Digits {
  import opened Modulus

  function Digit(n: int): char
    requires 0 <= n <= 9
  {
    ('0' as int + n) as char
  }

  predicate IsDigit(c: char) {
    '0' <= c <= '9'
  }

  function DigitValue(c: char): int
    requires IsDigit(c)
  {
    c as int - '0' as int
  }

  /** The decimal digits of a number, without leading zeros. */
  function Decimal(n: nat): (s: string)
    ensures |s| > 0 && forall i :: 0 <= i < |s| ==> IsDigit(s[i])
  {
    if n < 10 then [Digit(n)] else Decimal(n / 10) + [Digit(n % 10)]
  }

  /** printf("%0*d"). */
  function Padded(n: int, width: nat): string {
    if n < 0 then "-" + Zeros(width - 1 - |Decimal(-n)|) + Decimal(-n)
    else Zeros(width - |Decimal(n)|) + Decimal(n)
  }

  function Zeros(count: int): string {
    if count <= 0 then "" else Zeros(count - 1) + "0"
  }

  /** The last width digits of a number, most significant first. */
  function Fixed(n: nat, width: nat): (s: string)
    ensures |s| == width && forall i :: 0 <= i < width ==> IsDigit(s[i])
  {
    if width == 0 then "" else Fixed(n / 10, width - 1) + [Digit(n % 10)]
  }

  function PowerOfTen(k: nat): nat {
    if k == 0 then 1 else 10 * PowerOfTen(k - 1)
  }

  lemma {:induction false} FixedZero(width: nat)
    ensures Fixed(0, width) == Zeros(width)
  {
    if width == 0 {
    } else {
      FixedZero(width - 1);
    }
  }

  /** A number that fits its field is printed padded to exactly the field. */
  lemma {:induction false} PaddedIsFixed(n: nat, width: nat)
    requires 0 < width && n < PowerOfTen(width)
    ensures Padded(n, width) == Fixed(n, width)
  {
    if n < 10 {
      FixedZero(width - 1);
      assert Fixed(n / 10, width - 1) == Zeros(width - 1);
    } else {
      assert width > 1;
      PaddedIsFixed(n / 10, width - 1);
      assert Zeros(width - |Decimal(n)|) + Decimal(n)
          == (Zeros(width - 1 - |Decimal(n / 10)|) + Decimal(n / 10)) + [Digit(n % 10)];
    }
  }

  /** The value of a run of digits read most significant first. */
  function Value(s: string): int
    requires forall i :: 0 <= i < |s| ==> IsDigit(s[i])
  {
    if s == "" then 0 else Value(s[..|s| - 1]) * 10 + DigitValue(s[|s| - 1])
  }

  lemma {:induction false} ValueOfFixed(n: nat, width: nat)
    requires n < PowerOfTen(width)
    ensures Value(Fixed(n, width)) == n
  {
    if width == 0 {
    } else {
      ValueOfFixed(n / 10, width - 1);
      assert Fixed(n, width)[..width - 1] == Fixed(n / 10, width - 1);
    }
  }

  lemma {:induction false} FixedOfValue(s: string)
    requires forall i :: 0 <= i < |s| ==> IsDigit(s[i])
    ensures 0 <= Value(s) < PowerOfTen(|s|) && Fixed(Value(s), |s|) == s
  {
    if s == "" {
    } else {
      var init, last := s[..|s| - 1], DigitValue(s[|s| - 1]);
      FixedOfValue(init);
      DivModUnique(Value(s), 10, Value(init), last);
      assert s == init + [s[|s| - 1]];
    }
  }
}

/** The time-val text of FTP MDTM and MFMT (src/fat_time.cpp, section 2.3 of RFC 3659) and the clock
    text built from an NTP answer (src/ntp_time.cpp). */
module FtpTime {
  import opened Common
  import opened Calendar
  import opened FatTime
  import opened Digits
  import opened Modulus

  /** snprintf(output, 15, "%04d%02d%02d%02d%02d%02d", ...): at most 14 characters survive. */
  function FormatFtpTimeVal(unixSeconds: int): string {
    var c := UnixToCivil(unixSeconds);
    var text := Padded(c.date.year, 4) + Padded(c.date.month, 2) + Padded(c.date.day, 2)
              + Padded(c.hour, 2) + Padded(c.minute, 2) + Padded(c.second, 2);
    if |text| > 14 then text[..14] else text
  }

  /** Fourteen digits: what the text is for a year that fits its field. */
  function FourteenDigits(c: DateTime): (s: string)
    requires 0 <= c.date.year && 0 <= c.date.month && 0 <= c.date.day && 0 <= c.hour && 0 <= c.minute && 0 <= c.second
    ensures |s| == 14 && forall i :: 0 <= i < 14 ==> IsDigit(s[i])
  {
    Fixed(c.date.year, 4) + Fixed(c.date.month, 2) + Fixed(c.date.day, 2)
      + Fixed(c.hour, 2) + Fixed(c.minute, 2) + Fixed(c.second, 2)
  }

  lemma FormatIsFourteenDigits(unixSeconds: int)
    requires 0 <= UnixToCivil(unixSeconds).date.year <= 9999
    ensures var c := UnixToCivil(unixSeconds);
      && ValidDate(c.date.year, c.date.month, c.date.day) && ValidClock(c.hour, c.minute, c.second)
      && FormatFtpTimeVal(unixSeconds) == FourteenDigits(c)
  {
    hide UnixToCivil, CivilToUnix, Padded, Fixed;
    UnixRoundTrip(unixSeconds);
    var c := UnixToCivil(unixSeconds);
    assert PowerOfTen(4) == 10 * PowerOfTen(3) && PowerOfTen(3) == 10 * PowerOfTen(2) && PowerOfTen(2) == 100;
    PaddedIsFixed(c.date.year, 4);
    PaddedIsFixed(c.date.month, 2);
    PaddedIsFixed(c.date.day, 2);
    PaddedIsFixed(c.hour, 2);
    PaddedIsFixed(c.minute, 2);
    PaddedIsFixed(c.second, 2);
  }

  // ----- parseFtpTimeVal -----

  /** A C string: the terminator follows the last character. */
  function CharAt(text: string, index: nat): char {
    if index < |text| then text[index] else '\0'
  }

  /** takeDigits(): count digits in a row, or nothing. */
  function TakeDigits(text: string, cursor: nat, count: nat): Option<int> {
    if cursor + count <= |text| && forall i :: cursor <= i < cursor + count ==> IsDigit(text[i])
    then Some(Value(text[cursor..cursor + count])) else None
  }

  method TakeDigitsLoop(text: string, cursor: nat, count: nat) returns (result: Option<int>)
    requires 0 < count
    ensures result == TakeDigits(text, cursor, count)
  {
    var value := 0;
    for index := 0 to count
      invariant index == 0 || cursor + index <= |text|
      invariant forall i :: cursor <= i < cursor + index ==> IsDigit(text[i])
      invariant value == if index == 0 then 0 else Value(text[cursor..cursor + index])
    {
      var digit := CharAt(text, cursor + index);
      if !IsDigit(digit) {
        return None;
      }
      assert text[cursor..cursor + index + 1][..index] == text[cursor..cursor + index];
      value := value * 10 + DigitValue(digit);
    }
    return Some(value);
  }

  function EndOfDigits(text: string, cursor: nat): (end: nat)
    ensures cursor <= end && !IsDigit(CharAt(text, end))
    ensures forall i :: cursor <= i < end ==> IsDigit(CharAt(text, i))
    decreases if cursor < |text| then |text| - cursor else 0
  {
    if IsDigit(CharAt(text, cursor)) then EndOfDigits(text, cursor + 1) else cursor
  }

  /** The accepted time and where the text ends. A fraction needs at least one digit and is dropped. */
  function ParseFtpTimeVal(text: string): Option<(int, nat)> {
    var year, month, day := TakeDigits(text, 0, 4), TakeDigits(text, 4, 2), TakeDigits(text, 6, 2);
    var hour, minute, second := TakeDigits(text, 8, 2), TakeDigits(text, 10, 2), TakeDigits(text, 12, 2);
    if year.None? || month.None? || day.None? || hour.None? || minute.None? || second.None? then None
    else if CharAt(text, 14) == '.' && !IsDigit(CharAt(text, 15)) then None
    else
      var c := DateTime(Date(year.value, month.value, day.value), hour.value, minute.value, second.value);
      if !ValidCivil(c) then None
      else Some((CivilToUnix(c), if CharAt(text, 14) == '.' then EndOfDigits(text, 15) else 14))
  }

  method ParseFtpTimeValLoop(text: string) returns (result: Option<(int, nat)>)
    ensures result == ParseFtpTimeVal(text)
  {
    hide CivilToUnix, ValidCivil;
    var year := TakeDigitsLoop(text, 0, 4);
    if year.None? { return None; }
    var month := TakeDigitsLoop(text, 4, 2);
    if month.None? { return None; }
    var day := TakeDigitsLoop(text, 6, 2);
    if day.None? { return None; }
    var hour := TakeDigitsLoop(text, 8, 2);
    if hour.None? { return None; }
    var minute := TakeDigitsLoop(text, 10, 2);
    if minute.None? { return None; }
    var second := TakeDigitsLoop(text, 12, 2);
    if second.None? { return None; }
    var cursor := 14;
    if CharAt(text, cursor) == '.' {
      cursor := cursor + 1;
      if !IsDigit(CharAt(text, cursor)) {
        return None;
      }
      while IsDigit(CharAt(text, cursor))
        invariant 15 <= cursor && EndOfDigits(text, 15) == EndOfDigits(text, cursor)
        decreases if cursor < |text| then |text| - cursor else 0
      {
        cursor := cursor + 1;
      }
    }
    var c := DateTime(Date(year.value, month.value, day.value), hour.value, minute.value, second.value);
    if !ValidCivil(c) {
      return None;
    }
    return Some((CivilToUnix(c), cursor));
  }

  lemma TakeFixed(before: string, n: nat, width: nat, after: string)
    requires 0 < width && n < PowerOfTen(width)
    ensures TakeDigits(before + Fixed(n, width) + after, |before|, width) == Some(n)
  {
    var text := before + Fixed(n, width) + after;
    ValueOfFixed(n, width);
    assert text[|before|..|before| + width] == Fixed(n, width);
    forall i | |before| <= i < |before| + width ensures IsDigit(text[i]) {
      assert text[i] == Fixed(n, width)[i - |before|];
    }
  }

  lemma TakeFields(c: DateTime, rest: string)
    requires ValidCivil(c)
    ensures var text := FourteenDigits(c) + rest;
      && TakeDigits(text, 0, 4) == Some(c.date.year) && TakeDigits(text, 4, 2) == Some(c.date.month)
      && TakeDigits(text, 6, 2) == Some(c.date.day) && TakeDigits(text, 8, 2) == Some(c.hour)
      && TakeDigits(text, 10, 2) == Some(c.minute) && TakeDigits(text, 12, 2) == Some(c.second)
  {
    hide Fixed, TakeDigits, DaysInMonth;
    assert PowerOfTen(4) == 10 * PowerOfTen(3) && PowerOfTen(3) == 10 * PowerOfTen(2) && PowerOfTen(2) == 100;
    var y, mo, d := Fixed(c.date.year, 4), Fixed(c.date.month, 2), Fixed(c.date.day, 2);
    var h, mi, s := Fixed(c.hour, 2), Fixed(c.minute, 2), Fixed(c.second, 2);
    var text := FourteenDigits(c) + rest;
    assert text == "" + y + (mo + d + h + mi + s + rest);
    TakeFixed("", c.date.year, 4, mo + d + h + mi + s + rest);
    assert text == y + mo + (d + h + mi + s + rest);
    TakeFixed(y, c.date.month, 2, d + h + mi + s + rest);
    assert text == (y + mo) + d + (h + mi + s + rest);
    TakeFixed(y + mo, c.date.day, 2, h + mi + s + rest);
    assert text == (y + mo + d) + h + (mi + s + rest);
    TakeFixed(y + mo + d, c.hour, 2, mi + s + rest);
    assert text == (y + mo + d + h) + mi + (s + rest);
    TakeFixed(y + mo + d + h, c.minute, 2, s + rest);
    assert text == (y + mo + d + h + mi) + s + rest;
    TakeFixed(y + mo + d + h + mi, c.second, 2, rest);
  }

  /** Parsing undoes formatting for every time in the years 1 to 9999, whatever follows the text; a
      following fraction is skipped, and only a point without a digit is refused. */
  lemma ParseUndoesFormat(unixSeconds: int, rest: string)
    requires 1 <= UnixToCivil(unixSeconds).date.year <= 9999
    ensures |FormatFtpTimeVal(unixSeconds)| == 14
    ensures ParseFtpTimeVal(FormatFtpTimeVal(unixSeconds) + rest)
      == if rest == "" || rest[0] != '.' then Some((unixSeconds, 14))
         else if |rest| > 1 && IsDigit(rest[1]) then Some((unixSeconds, EndOfDigits(FormatFtpTimeVal(unixSeconds) + rest, 15)))
         else None
  {
    hide UnixToCivil, CivilToUnix, TakeDigits, FormatFtpTimeVal, FourteenDigits;
    UnixRoundTrip(unixSeconds);
    FormatIsFourteenDigits(unixSeconds);
    TakeFields(UnixToCivil(unixSeconds), rest);
  }

  /** A text is accepted exactly when it begins with fourteen digits that name a real date of the years 1
      to 9999 and a time of day, and a point behind them is followed by a digit. */
  lemma ParseAcceptsIff(text: string)
    ensures ParseFtpTimeVal(text).Some? <==>
      && |text| >= 14 && (forall i :: 0 <= i < 14 ==> IsDigit(text[i]))
      && RealDate(Value(text[0..4]), Value(text[4..6]), Value(text[6..8])) && 1 <= Value(text[0..4])
      && Value(text[8..10]) <= 23 && Value(text[10..12]) <= 59 && Value(text[12..14]) <= 59
      && (|text| > 14 && text[14] == '.' ==> |text| > 15 && IsDigit(text[15]))
  {
    hide CivilToUnix, Value, ValidDate;
    if |text| >= 14 && forall i :: 0 <= i < 14 ==> IsDigit(text[i]) {
      FixedOfValue(text[0..4]);
      FixedOfValue(text[4..6]);
      FixedOfValue(text[6..8]);
      FixedOfValue(text[8..10]);
      FixedOfValue(text[10..12]);
      FixedOfValue(text[12..14]);
      RealDateIs(Value(text[0..4]), Value(text[4..6]), Value(text[6..8]));
    }
  }

  lemma DigitsAreFixed(text: string, cursor: nat, count: nat)
    requires TakeDigits(text, cursor, count).Some?
    ensures cursor + count <= |text| && 0 <= TakeDigits(text, cursor, count).value
    ensures text[cursor..cursor + count] == Fixed(TakeDigits(text, cursor, count).value, count)
  {
    FixedOfValue(text[cursor..cursor + count]);
  }

  /** A fraction is its digits and nothing else. */
  lemma FractionIsDigits(text: string)
    requires 15 < |text| && IsDigit(text[15])
    ensures var end := EndOfDigits(text, 15);
      15 < end <= |text| && (forall i :: 15 <= i < end ==> IsDigit(text[i])) && (end < |text| ==> !IsDigit(text[end]))
  {
    var end := EndOfDigits(text, 15);
    assert end == EndOfDigits(text, 16);
    assert !IsDigit(CharAt(text, |text|));
    forall i | 15 <= i < end && i < |text| ensures IsDigit(text[i]) {
      assert IsDigit(CharAt(text, i));
    }
  }

  /** The text never has more than fourteen characters, and is the beginning of its fields. */
  lemma FormatFitsItsBuffer(unixSeconds: int)
    ensures var c, text := UnixToCivil(unixSeconds), FormatFtpTimeVal(unixSeconds);
      |text| <= 14 && text <= Padded(c.date.year, 4) + Padded(c.date.month, 2) + Padded(c.date.day, 2)
                              + Padded(c.hour, 2) + Padded(c.minute, 2) + Padded(c.second, 2)
  {
    hide UnixToCivil, Padded;
  }

  /** And formatting undoes parsing: the accepted digits are the canonical text of their time. */
  lemma FormatUndoesParse(text: string)
    requires ParseFtpTimeVal(text).Some?
    ensures |text| >= 14 && FormatFtpTimeVal(ParseFtpTimeVal(text).value.0) == text[..14]
  {
    hide UnixToCivil, CivilToUnix, TakeDigits, FormatFtpTimeVal, Fixed;
    var c := DateTime(Date(TakeDigits(text, 0, 4).value, TakeDigits(text, 4, 2).value, TakeDigits(text, 6, 2).value),
                      TakeDigits(text, 8, 2).value, TakeDigits(text, 10, 2).value, TakeDigits(text, 12, 2).value);
    CivilRoundTrip(c);
    FormatIsFourteenDigits(CivilToUnix(c));
    DigitsAreFixed(text, 0, 4);
    DigitsAreFixed(text, 4, 2);
    DigitsAreFixed(text, 6, 2);
    DigitsAreFixed(text, 8, 2);
    DigitsAreFixed(text, 10, 2);
    DigitsAreFixed(text, 12, 2);
    assert text[..14] == text[0..4] + text[4..6] + text[6..8] + text[8..10] + text[10..12] + text[12..14];
  }

  // ----- formatNtpTimestamp -----

  type Seconds32 = x: int | 0 <= x < 0x1_0000_0000

  const UNIX_EPOCH_AT_1900 := 2208988800
  const NTP_ERA_SECONDS := 0x1_0000_0000

  /** The month and the year from the day of a year that starts in March, with the shifted month
      subtracted where the first calendar chooses between two sums. */
  function NtpDateOfMarchYear(marchYear: int, dayOfYear: int): Date {
    var monthPrime := (5 * dayOfYear + 2) / 153;
    var day := dayOfYear - (153 * monthPrime + 2) / 5 + 1;
    var month := monthPrime + (if monthPrime < 10 then 3 else -9);
    Date(marchYear + (if month <= 2 then 1 else 0), month, day)
  }

  function NtpDateOfEra(era: int, dayOfEra: int): Date {
    var yearOfEra := (dayOfEra - dayOfEra / 1460 + dayOfEra / 36524 - dayOfEra / 146096) / 365;
    NtpDateOfMarchYear(yearOfEra + era * 400, dayOfEra - (365 * yearOfEra + yearOfEra / 4 - yearOfEra / 100))
  }

  /** The second copy of civil_from_days: the same steps in another order, refusing years that do
      not fit four digits. */
  function NtpCivilFromDays(days: int): Option<Date> {
    var shifted := days + 719468;
    var era := TruncDiv(if shifted >= 0 then shifted else shifted - 146096, 146097);
    var date := NtpDateOfEra(era, shifted - era * 146097);
    if 0 <= date.year <= 9999 then Some(date) else None
  }

  lemma MarchYearsAgree(marchYear: int, dayOfYear: int)
    ensures NtpDateOfMarchYear(marchYear, dayOfYear) == DateOfMarchYear(marchYear, dayOfYear)
  {
  }

  lemma ErasAgree(era: int, dayOfEra: int)
    ensures NtpDateOfEra(era, dayOfEra) == DateOfEra(era, dayOfEra, YearOfEra(dayOfEra))
  {
    hide NtpDateOfMarchYear, DateOfMarchYear;
    var yearOfEra := YearOfEra(dayOfEra);
    MarchYearsAgree(yearOfEra + era * 400, dayOfEra - (365 * yearOfEra + yearOfEra / 4 - yearOfEra / 100));
  }

  /** The two calendars of the firmware name the same date for every day number. */
  lemma TwoCalendarsAgree(days: int)
    ensures NtpCivilFromDays(days)
      == if 0 <= CivilFromDays(days).year <= 9999 then Some(CivilFromDays(days)) else None
  {
    hide NtpDateOfEra, DateOfEra, YearOfEra, TruncDiv;
    var era := DayEra(days + 719468);
    ErasAgree(era, days + 719468 - era * 146097);
  }

  /** NTP seconds before 1970 belong to the era that starts in 2036. */
  function NtpToUnix(ntpSeconds: Seconds32): (unixSeconds: int)
    ensures 0 <= unixSeconds < NTP_ERA_SECONDS
  {
    (if ntpSeconds < UNIX_EPOCH_AT_1900 then ntpSeconds + NTP_ERA_SECONDS else ntpSeconds) - UNIX_EPOCH_AT_1900
  }

  /** Seconds from 1 January 1900 to a date and time, counted in days of the calendar. */
  function SecondsSince1900(c: DateTime): int
    requires 1 <= c.date.month <= 12
  {
    (DayCount(c.date.year, c.date.month, c.date.day) - DayCount(1900, 1, 1)) * 86400
    + c.hour * 3600 + c.minute * 60 + c.second
  }

  /** The date and time that is printed is the NTP time, up to whole eras of 2^32 seconds, in the era
      that covers 1970 to 2106; a time zone moves it by its hours. */
  lemma PrintedDateIsNtpTime(ntpSeconds: Seconds32, timezoneHours: int)
    requires -14 <= timezoneHours <= 14
    ensures var c := UnixToCivil(NtpToUnix(ntpSeconds) + timezoneHours * 3600);
      && ValidDate(c.date.year, c.date.month, c.date.day) && ValidClock(c.hour, c.minute, c.second)
      && (SecondsSince1900(c) - timezoneHours * 3600) % 0x1_0000_0000 == ntpSeconds
      && 25567 * 86400 <= SecondsSince1900(c) - timezoneHours * 3600 < 25567 * 86400 + 0x1_0000_0000
  {
    hide DaysFromCivil, CivilFromDays, FloorDiv, DayCount;
    var unix := NtpToUnix(ntpSeconds);
    var local := unix + timezoneHours * 3600;
    var c := UnixToCivil(local);
    UnixRoundTrip(local);
    DaysFromCivilIsDayCount(c.date.year, c.date.month, c.date.day);
    FirstOf1900();
    assert SecondsSince1900(c) - timezoneHours * 3600 == unix + 25567 * 86400;
    DivModUnique(unix + 25567 * 86400, 0x1_0000_0000, if ntpSeconds < 25567 * 86400 then 1 else 0, ntpSeconds);
  }

  lemma FirstOf1900()
    ensures DayCount(1900, 1, 1) == -25567
  {
    DaysFromCivilIsDayCount(1900, 1, 1);
  }

  method PutTwoDigits(output: array<char>, at: nat, value: nat)
    requires at + 2 <= output.Length
    modifies output
    ensures output[..] == old(output[..at]) + Fixed(value, 2) + old(output[at + 2..])
  {
    output[at] := Digit(value / 10 % 10);
    output[at + 1] := Digit(value % 10);
    assert Fixed(value, 2) == Fixed(value / 10, 1) + [Digit(value % 10)];
    assert Fixed(value / 10, 1) == [Digit(value / 10 % 10)];
  }

  lemma FixedFour(n: nat)
    ensures Fixed(n, 4) == [Digit(n / 1000 % 10), Digit(n / 100 % 10), Digit(n / 10 % 10), Digit(n % 10)]
  {
    assert n / 10 / 10 == n / 100 && n / 100 / 10 == n / 1000;
    assert Fixed(n, 4) == Fixed(n / 10, 3) + [Digit(n % 10)];
    assert Fixed(n / 10, 3) == Fixed(n / 100, 2) + [Digit(n / 10 % 10)];
    assert Fixed(n / 100, 2) == Fixed(n / 1000, 1) + [Digit(n / 100 % 10)];
    assert Fixed(n / 1000, 1) == [Digit(n / 1000 % 10)];
  }

  lemma RemainderDays(localSeconds: int)
    ensures var days, rest := TruncDiv(localSeconds, SECONDS_PER_DAY), TruncMod(localSeconds, SECONDS_PER_DAY);
      (if rest < 0 then days - 1 else days) == FloorDiv(localSeconds, SECONDS_PER_DAY)
      && (if rest < 0 then rest + SECONDS_PER_DAY else rest)
         == localSeconds - FloorDiv(localSeconds, SECONDS_PER_DAY) * SECONDS_PER_DAY
  {
  }

  /** The years an NTP answer can name always fit, in every time zone. */
  lemma NtpYearFits(localSeconds: int)
    requires -14 * 3600 <= localSeconds < NTP_ERA_SECONDS + 14 * 3600
    ensures 0 <= UnixToCivil(localSeconds).date.year <= 9999
  {
    hide UnixToCivil, CivilToUnix, DaysFromCivil;
    UnixRoundTrip(localSeconds);
    var c := UnixToCivil(localSeconds);
    DaysFromCivilIsDayCount(c.date.year, c.date.month, c.date.day);
    DaysOfYearBounded(c.date.year, c.date.month, c.date.day);
    ClockIsUnique(c.hour, c.minute, c.second);
    CivilToUnixBounds(c);
    YearStartIsMarchStart(0);
    YearStartIsMarchStart(10000);
    if c.date.year < 0 { YearStartGrows(c.date.year, 0); }
    if 9999 < c.date.year { YearStartGrows(9999, c.date.year); YearStartIsMarchStart(9999); }
  }

  lemma CivilToUnixBounds(c: DateTime)
    requires ValidClock(c.hour, c.minute, c.second)
    ensures var days := DaysFromCivil(c.date.year, c.date.month, c.date.day);
      days * SECONDS_PER_DAY <= CivilToUnix(c) < (days + 1) * SECONDS_PER_DAY
  {
    hide DaysFromCivil;
  }

  /** formatNtpTimestamp prints the very text formatFtpTimeVal prints for the same local second. */
  method FormatNtpTimestamp(ntpSeconds: Seconds32, timezoneHours: int, output: array<char>) returns (ok: bool)
    requires output.Length == 15
    modifies output
    ensures ok <==> -14 <= timezoneHours <= 14
    ensures ok ==> output[..14] == FormatFtpTimeVal(NtpToUnix(ntpSeconds) + timezoneHours * 3600)
    ensures ok ==> output[14] == '\0'
  {
    hide CivilFromDays, FloorDiv, FormatFtpTimeVal, CivilToUnix, NtpCivilFromDays, TruncDiv, TruncMod;
    if timezoneHours < -14 || timezoneHours > 14 {
      return false;
    }
    var localSeconds := NtpToUnix(ntpSeconds) + timezoneHours * 3600;
    var days := TruncDiv(localSeconds, SECONDS_PER_DAY);
    var secondsInDay := TruncMod(localSeconds, SECONDS_PER_DAY);
    RemainderDays(localSeconds);
    if secondsInDay < 0 {
      secondsInDay := secondsInDay + SECONDS_PER_DAY;
      days := days - 1;
    }
    ghost var c := UnixToCivil(localSeconds);
    NtpYearFits(localSeconds);
    TwoCalendarsAgree(days);
    FormatIsFourteenDigits(localSeconds);
    var date := NtpCivilFromDays(days).value;
    WriteFields(output, DateTime(date, secondsInDay / 3600, secondsInDay / 60 % 60, secondsInDay % 60));
    MinuteForms(secondsInDay);
    return true;
  }

  lemma MinuteForms(rest: int)
    ensures rest / 60 % 60 == rest % 3600 / 60
  {
  }

  method WriteFields(output: array<char>, c: DateTime)
    requires output.Length == 15
    requires 0 <= c.date.year && 0 <= c.date.month && 0 <= c.date.day && 0 <= c.hour && 0 <= c.minute && 0 <= c.second
    modifies output
    ensures output[..14] == FourteenDigits(c) && output[14] == '\0'
  {
    hide Fixed;
    FixedFour(c.date.year);
    output[0] := Digit(c.date.year / 1000 % 10);
    output[1] := Digit(c.date.year / 100 % 10);
    output[2] := Digit(c.date.year / 10 % 10);
    output[3] := Digit(c.date.year % 10);
    assert output[..4] == Fixed(c.date.year, 4);
    PutTwoDigits(output, 4, c.date.month);
    assert output[..6] == Fixed(c.date.year, 4) + Fixed(c.date.month, 2);
    PutTwoDigits(output, 6, c.date.day);
    assert output[..8] == Fixed(c.date.year, 4) + Fixed(c.date.month, 2) + Fixed(c.date.day, 2);
    PutTwoDigits(output, 8, c.hour);
    assert output[..10] == Fixed(c.date.year, 4) + Fixed(c.date.month, 2) + Fixed(c.date.day, 2) + Fixed(c.hour, 2);
    PutTwoDigits(output, 10, c.minute);
    PutTwoDigits(output, 12, c.second);
    output[14] := '\0';
  }
}
