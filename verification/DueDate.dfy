/**
 * The due-date flag of the issue commands (src/cli/linear-request-builders.ts, src/cli/flags.ts): a text is a date when
 * building a Date from its three numbers and reading the numbers back changes none of them. The Date operations are
 * those of ECMA-262, section 21.4.1 (days, years, months, MakeDay, MakeDate, TimeClip) and section 21.4.3.4 (Date.UTC).
 */
module DueDate {
  import opened Options
  import CliArgs

  // ---- ECMA-262, section 21.4.1 ----

  const MS_PER_DAY := 86_400_000
  const MAX_TIME := 8_640_000_000_000_000

  function Day(t: int): int { t / MS_PER_DAY }

  function FourthYears(y: int): int { (y - 1969) / 4 }

  function Centuries(y: int): int { (y - 1901) / 100 }

  function FourthCenturies(y: int): int { (y - 1601) / 400 }

  function DayFromYear(y: int): int {
    365 * (y - 1970) + FourthYears(y) - Centuries(y) + FourthCenturies(y)
  }

  function TimeFromYear(y: int): int { MS_PER_DAY * DayFromYear(y) }

  predicate Divides(n: int, y: int)
    requires n > 0
  {
    y % n == 0
  }

  function DaysInYear(y: int): int {
    if !Divides(4, y) then 365 else if !Divides(100, y) then 366 else if !Divides(400, y) then 365 else 366
  }

  /** The last year from `y` on that starts no later than `day`. */
  function LastYearStarted(day: int, y: int): (r: int)
    requires DayFromYear(y) <= day
    ensures y <= r && DayFromYear(r) <= day < DayFromYear(r + 1)
    decreases day - DayFromYear(y)
  {
    YearStep(y);
    if DayFromYear(y + 1) <= day then LastYearStarted(day, y + 1) else y
  }

  function SomeYearStarted(day: int): (y: int)
    ensures DayFromYear(y) <= day
  {
    var y := 1960 + if day >= 0 then day / 366 else day / 365;
    FewLeapDays(y);
    y
  }

  lemma FewLeapDays(y: int)
    ensures DayFromYear(y) <= (if y >= 1960 then 366 else 365) * (y - 1960)
  {
    assert 4 * FourthYears(y) <= y - 1969 && 100 * Centuries(y) > y - 2001 && 400 * FourthCenturies(y) <= y - 1601;
    hide FourthYears, Centuries, FourthCenturies;
  }

  function YearFromTime(t: int): int { LastYearStarted(Day(t), SomeYearStarted(Day(t))) }

  function DayWithinYear(t: int): int { Day(t) - DayFromYear(YearFromTime(t)) }

  /** The days of the year before the month, counted from 0; `leap` is 1 in a leap year. */
  function MonthStart(month: int, leap: int): int {
    match month
    case 0 => 0
    case 1 => 31
    case 2 => 59 + leap
    case 3 => 90 + leap
    case 4 => 120 + leap
    case 5 => 151 + leap
    case 6 => 181 + leap
    case 7 => 212 + leap
    case 8 => 243 + leap
    case 9 => 273 + leap
    case 10 => 304 + leap
    case 11 => 334 + leap
    case _ => 365 + leap
  }

  function InLeapYear(y: int): int { DaysInYear(y) - 365 }

  /** The first month, from `month` on, that ends after the day. */
  function MonthAt(day: int, leap: int, month: nat): (m: nat)
    requires month <= 11 && day < MonthStart(12, leap) && MonthStart(month, leap) <= day
    ensures month <= m <= 11 && MonthStart(m, leap) <= day < MonthStart(m + 1, leap)
    decreases 11 - month
  {
    if day < MonthStart(month + 1, leap) then month else MonthAt(day, leap, month + 1)
  }

  function MonthFromTime(t: int): nat {
    DayFitsYear(t);
    MonthAt(DayWithinYear(t), InLeapYear(YearFromTime(t)), 0)
  }

  function DateFromTime(t: int): int {
    DayWithinYear(t) - MonthStart(MonthFromTime(t), InLeapYear(YearFromTime(t))) + 1
  }

  /**
   * The day of a year, month (from 0, and any number of years past it) and date; MonthOpens says it is the
   * one meant.
   */
  function MakeDay(year: int, month: int, date: int): int {
    var ym := year + month / 12;
    DayFromYear(ym) + MonthStart(month % 12, InLeapYear(ym)) + date - 1
  }

  /** `None` is NaN. */
  function TimeClip(time: int): Option<int> {
    if -MAX_TIME <= time <= MAX_TIME then Some(time) else None
  }

  /** ECMA-262, section 21.4.3.4, on three whole numbers. */
  function DateUtc(year: int, month: int, date: int): Option<int> {
    var fullYear := if 0 <= year <= 99 then 1900 + year else year;
    TimeClip(MS_PER_DAY * MakeDay(fullYear, month, date))
  }

  // ---- The flag ----

  datatype Error = Missing | NotDateShaped | NotRealDate
  datatype Result = Accepted(value: string) | Rejected(error: Error)

  function GetRequiredStringFlag(flags: CliArgs.Flags, name: string): Option<string> {
    if name in flags && flags[name].Text? && |flags[name].text| > 0 then Some(flags[name].text) else None
  }

  predicate IsDigit(c: char) { '0' <= c <= '9' }

  function DigitValue(c: char): (n: nat)
    requires IsDigit(c)
    ensures n <= 9
  {
    c as int - '0' as int
  }

  predicate DateShaped(s: string) {
    |s| == 10 && forall i :: 0 <= i < 10 ==> if i == 4 || i == 7 then s[i] == '-' else IsDigit(s[i])
  }

  function Number(s: string): (n: nat)
    requires forall i :: 0 <= i < |s| ==> IsDigit(s[i])
  {
    if s == "" then 0 else 10 * Number(s[..|s| - 1]) + DigitValue(s[|s| - 1])
  }

  function GetDueDateFlag(flags: CliArgs.Flags, name: string): Result {
    match GetRequiredStringFlag(flags, name)
    case None => Rejected(Missing)
    case Some(value) =>
      if !DateShaped(value) then Rejected(NotDateShaped)
      else
        var year, month, day := Number(value[..4]), Number(value[5..7]), Number(value[8..]);
        match DateUtc(year, month - 1, day)
        case None => Rejected(NotRealDate)
        case Some(date) =>
          if YearFromTime(date) != year || MonthFromTime(date) != month - 1 || DateFromTime(date) != day then
            Rejected(NotRealDate)
          else Accepted(value)
  }

  // ---- The calendar itself ----

  /** A date of the Gregorian calendar, extended to all years; months count from 1. */
  datatype Civil = Civil(year: int, month: int, day: int)

  predicate LeapYear(y: int) { Divides(4, y) && (Divides(100, y) ==> Divides(400, y)) }

  function DaysInMonth(y: int, month: int): int {
    if month == 2 then if LeapYear(y) then 29 else 28
    else if month in {4, 6, 9, 11} then 30
    else 31
  }

  predicate RealDate(c: Civil) { 1 <= c.month <= 12 && 1 <= c.day <= DaysInMonth(c.year, c.month) }

  /** The date after a date, as one turns the pages of a calendar. */
  function NextDate(c: Civil): Civil {
    if c.day < DaysInMonth(c.year, c.month) then c.(day := c.day + 1)
    else if c.month < 12 then Civil(c.year, c.month + 1, 1)
    else Civil(c.year + 1, 1, 1)
  }

  /** What the three getters of a Date answer. */
  function CivilOf(t: int): Civil { Civil(YearFromTime(t), MonthFromTime(t) + 1, DateFromTime(t)) }

  function DayOf(c: Civil): int { MakeDay(c.year, c.month - 1, c.day) }

  lemma YearStep(y: int)
    ensures DayFromYear(y + 1) == DayFromYear(y) + DaysInYear(y)
  {
    hide FourthYears, Centuries, FourthCenturies, Divides;
    NextFourthYear(y);
    NextCentury(y);
    NextFourthCentury(y);
    Divisors(y);
  }

  lemma DayFitsYear(t: int)
    ensures InLeapYear(YearFromTime(t)) in {0, 1}
    ensures MonthStart(0, InLeapYear(YearFromTime(t))) <= DayWithinYear(t) < MonthStart(12, InLeapYear(YearFromTime(t)))
  {
    YearStep(YearFromTime(t));
    hide DayFromYear;
  }

  lemma NextFourthYear(y: int)
    ensures FourthYears(y + 1) - FourthYears(y) == if Divides(4, y) then 1 else 0
  {
  }

  lemma NextCentury(y: int)
    ensures Centuries(y + 1) - Centuries(y) == if Divides(100, y) then 1 else 0
  {
  }

  lemma NextFourthCentury(y: int)
    ensures FourthCenturies(y + 1) - FourthCenturies(y) == if Divides(400, y) then 1 else 0
  {
  }

  lemma Divisors(y: int)
    ensures Divides(400, y) ==> Divides(100, y)
    ensures Divides(100, y) ==> Divides(4, y)
  {
    FourHundredth(y);
    Hundredth(y);
    hide Divides;
  }

  lemma FourHundredth(y: int)
    ensures Divides(400, y) ==> Divides(100, y)
  {
    var k := y / 400;
    assert y == 400 * k + y % 400;
  }

  lemma Hundredth(y: int)
    ensures Divides(100, y) ==> Divides(4, y)
  {
    var k := y / 100;
    assert y == 100 * k + y % 100;
  }

  lemma {:induction false} YearsAscend(y: int, z: int)
    requires y <= z
    ensures DayFromYear(y) + 365 * (z - y) <= DayFromYear(z)
    decreases z - y
  {
    hide DayFromYear;
    if y < z {
      YearStep(y);
      YearsAscend(y + 1, z);
    }
  }

  /** YearFromTime is the largest year that has started: the definition of section 21.4.1.8. */
  lemma YearIsTheLastStarted(t: int, y: int)
    ensures TimeFromYear(y) <= t <==> y <= YearFromTime(t)
  {
    hide DayFromYear;
    var r := YearFromTime(t);
    if y <= r { YearsAscend(y, r); } else { YearsAscend(r + 1, y); }
    assert TimeFromYear(y) <= t <==> DayFromYear(y) <= Day(t);
  }

  lemma YearIsUnique(day: int, y: int)
    requires DayFromYear(y) <= day < DayFromYear(y + 1)
    ensures YearFromTime(MS_PER_DAY * day) == y
  {
    hide DayFromYear, YearFromTime;
    var t := MS_PER_DAY * day;
    YearIsTheLastStarted(t, y);
    YearIsTheLastStarted(t, y + 1);
  }

  lemma MonthIsUnique(day: int, leap: int, from: nat, m: nat)
    requires leap in {0, 1} && from <= m <= 11
    requires MonthStart(from, leap) <= day && MonthStart(m, leap) <= day < MonthStart(m + 1, leap)
    ensures day < MonthStart(12, leap) && MonthAt(day, leap, from) == m
  {
    hide MonthStart;
    MonthsAscend(m + 1, 12, leap);
    var r := MonthAt(day, leap, from);
    if r < m { MonthsAscend(r + 1, m, leap); }
    if m < r { MonthsAscend(m + 1, r, leap); }
  }

  lemma MonthsAscend(m: nat, n: nat, leap: int)
    requires leap in {0, 1} && m <= n <= 12
    ensures MonthStart(m, leap) <= MonthStart(n, leap)
  {
  }

  lemma MonthLength(y: int, month: nat)
    requires month <= 11
    ensures MonthStart(month + 1, InLeapYear(y)) == MonthStart(month, InLeapYear(y)) + DaysInMonth(y, month + 1)
  {
  }

  /** Reading a time gives a date that exists, and building that date gives the day back. */
  lemma GettersGiveRealDates(t: int)
    ensures RealDate(CivilOf(t)) && DayOf(CivilOf(t)) == Day(t)
  {
    hide DayFromYear, YearFromTime, MonthStart, DaysInMonth;
    MonthLength(YearFromTime(t), MonthFromTime(t));
  }

  lemma YearReadsBack(c: Civil)
    requires RealDate(c)
    ensures YearFromTime(MS_PER_DAY * DayOf(c)) == c.year
    ensures DayWithinYear(MS_PER_DAY * DayOf(c)) == MonthStart(c.month - 1, InLeapYear(c.year)) + c.day - 1
    ensures MonthStart(c.month, InLeapYear(c.year)) ==
              MonthStart(c.month - 1, InLeapYear(c.year)) + DaysInMonth(c.year, c.month)
  {
    hide DayFromYear, YearFromTime, MonthStart, DaysInMonth;
    MonthLength(c.year, c.month - 1);
    MonthBounds(c.month - 1, InLeapYear(c.year));
    YearStep(c.year);
    YearIsUnique(DayOf(c), c.year);
  }

  /** Building a date that exists and reading it back changes nothing. */
  lemma RealDatesRoundTrip(c: Civil)
    requires RealDate(c)
    ensures CivilOf(MS_PER_DAY * DayOf(c)) == c
  {
    hide DayFromYear, YearFromTime, DayWithinYear, MonthStart, DaysInMonth, DayOf;
    var leap, m := InLeapYear(c.year), c.month - 1;
    YearReadsBack(c);
    MonthBounds(m, leap);
    MonthIsUnique(MonthStart(m, leap) + c.day - 1, leap, 0, m);
  }

  lemma MonthBounds(m: nat, leap: int)
    requires leap in {0, 1} && m <= 11
    ensures MonthStart(0, leap) == 0 <= MonthStart(m, leap) <= MonthStart(m + 1, leap) <= 365 + leap ==
              MonthStart(12, leap)
  {
  }

  /** The getters walk through the Gregorian calendar one date at a time. */
  lemma DaysTurnPages(day: int)
    ensures CivilOf(MS_PER_DAY * (day + 1)) == NextDate(CivilOf(MS_PER_DAY * day))
  {
    hide CivilOf, DayOf, NextDate, RealDate;
    var c := CivilOf(MS_PER_DAY * day);
    GettersGiveRealDates(MS_PER_DAY * day);
    NextDateIsOneLater(c);
    RealDatesRoundTrip(NextDate(c));
  }

  /** They start it at 1 January 1970. */
  lemma EpochDate()
    ensures CivilOf(0) == Civil(1970, 1, 1)
  {
    hide CivilOf, DayOf;
    EpochIsDayZero();
    ReadAtMidnight(Civil(1970, 1, 1), 0);
  }

  lemma EpochIsDayZero()
    ensures DayOf(Civil(1970, 1, 1)) == 0
  {
    assert DayFromYear(1970) == 0;
  }

  lemma ReadAtMidnight(c: Civil, t: int)
    requires RealDate(c) && t == MS_PER_DAY * DayOf(c)
    ensures CivilOf(t) == c
  {
    hide CivilOf, DayOf, RealDate;
    RealDatesRoundTrip(c);
  }

  lemma DayInYear(c: Civil)
    requires 1 <= c.month <= 12
    ensures DayOf(c) == DayFromYear(c.year) + MonthStart(c.month - 1, InLeapYear(c.year)) + c.day - 1
    ensures DaysInMonth(c.year, c.month) >= 28
  {
    hide DayFromYear, MonthStart, InLeapYear, Divides;
  }

  lemma YearInMonths(y: int)
    ensures DayFromYear(y + 1) == DayFromYear(y) + MonthStart(12, InLeapYear(y)) && MonthStart(0, InLeapYear(y)) == 0
  {
    hide DayFromYear;
    YearStep(y);
  }

  lemma NextDateIsOneLater(c: Civil)
    requires RealDate(c)
    ensures RealDate(NextDate(c)) && DayOf(NextDate(c)) == DayOf(c) + 1
  {
    hide DayFromYear, DayOf, MonthStart, DaysInMonth, InLeapYear;
    DayInYear(c);
    DayInYear(NextDate(c));
    MonthLength(c.year, c.month - 1);
    YearInMonths(c.year);
    YearInMonths(c.year + 1);
  }

  /** The day that MakeDay finds is the one section 21.4.1 asks for: in that year and month, on the first of it. */
  lemma MonthOpens(year: int, month: int)
    ensures CivilOf(MS_PER_DAY * MakeDay(year, month, 1)) == Civil(year + month / 12, month % 12 + 1, 1)
  {
    hide CivilOf, DayFromYear, MonthStart;
    RealDatesRoundTrip(Civil(year + month / 12, month % 12 + 1, 1));
  }

  // ---- What the flag accepts ----

  lemma FourDigits(s: string)
    requires |s| == 4 && forall i :: 0 <= i < |s| ==> IsDigit(s[i])
    ensures Number(s) == 1000 * DigitValue(s[0]) + 100 * DigitValue(s[1]) + 10 * DigitValue(s[2]) + DigitValue(s[3])
    ensures Number(s) <= 9999
  {
    assert s[..3][..2] == s[..2] && s[..2][..1] == s[..1];
    TwoDigits(s[..2]);
  }

  lemma TwoDigits(s: string)
    requires |s| == 2 && forall i :: 0 <= i < |s| ==> IsDigit(s[i])
    ensures Number(s) == 10 * DigitValue(s[0]) + DigitValue(s[1]) && Number(s) <= 99
  {
    assert s[..1][..0] == "";
    assert Number(s[..1]) == DigitValue(s[0]);
  }

  /** The three numbers of a date-shaped text. */
  function Written(s: string): (c: Civil)
    requires DateShaped(s)
    ensures 0 <= c.year <= 9999 && 0 <= c.month <= 99 && 0 <= c.day <= 99
  {
    FourDigits(s[..4]);
    TwoDigits(s[5..7]);
    TwoDigits(s[8..]);
    Civil(Number(s[..4]), Number(s[5..7]), Number(s[8..]))
  }

  /** No text of this shape overflows a Date. */
  lemma NeverClipped(c: Civil)
    requires 0 <= c.year <= 9999 && 0 <= c.month <= 99 && 0 <= c.day <= 99
    ensures DateUtc(c.year, c.month - 1, c.day) ==
            Some(MS_PER_DAY * MakeDay(if c.year <= 99 then 1900 + c.year else c.year, c.month - 1, c.day))
  {
    hide DayFromYear, MonthStart, InLeapYear;
    var fullYear := if c.year <= 99 then 1900 + c.year else c.year;
    DayOfYearBound(fullYear + (c.month - 1) / 12);
    MonthStartBound((c.month - 1) % 12, fullYear + (c.month - 1) / 12);
  }

  lemma DayOfYearBound(y: int)
    requires -1 <= y <= 10100
    ensures -1_000_000 <= DayFromYear(y) <= 4_000_000
  {
  }

  lemma MonthStartBound(m: nat, y: int)
    requires m <= 11
    ensures 0 <= MonthStart(m, InLeapYear(y)) <= 366
  {
  }

  /** Years below 100 land in the twentieth century, so they are never read back. */
  lemma EarlyYearsMove(c: Civil)
    requires 0 <= c.year <= 99 && 0 <= c.month <= 99 && 0 <= c.day <= 99
    ensures YearFromTime(MS_PER_DAY * MakeDay(1900 + c.year, c.month - 1, c.day)) > 99
  {
    hide YearFromTime, DayFromYear, MonthStart, InLeapYear;
    var t := MS_PER_DAY * MakeDay(1900 + c.year, c.month - 1, c.day);
    MonthStartBound((c.month - 1) % 12, 1900 + c.year + (c.month - 1) / 12);
    var ym := 1900 + c.year + (c.month - 1) / 12;
    YearsAscend(1898, ym);
    YearIsTheLastStarted(t, 1898);
  }

  /** Reading a shaped text back changes nothing exactly for the dates that exist, from the year 100 on. */
  lemma ReadBackExactly(c: Civil)
    requires 0 <= c.year <= 9999 && 0 <= c.month <= 99 && 0 <= c.day <= 99
    ensures DateUtc(c.year, c.month - 1, c.day).Some?
    ensures CivilOf(DateUtc(c.year, c.month - 1, c.day).value) == c <==> RealDate(c) && c.year >= 100
  {
    hide DateUtc, MakeDay, YearFromTime, MonthFromTime, DateFromTime, RealDate;
    NeverClipped(c);
    if c.year <= 99 {
      EarlyYearsMove(c);
    } else {
      GettersGiveRealDates(MS_PER_DAY * DayOf(c));
      if RealDate(c) { RealDatesRoundTrip(c); }
    }
  }

  /** The flag is accepted exactly for the text of a date of the Gregorian calendar from the year 100 on. */
  lemma AcceptedExactly(flags: CliArgs.Flags, name: string, value: string)
    ensures GetDueDateFlag(flags, name) == Accepted(value) <==>
              name in flags && flags[name] == CliArgs.Text(value) && DateShaped(value) &&
              RealDate(Written(value)) && Written(value).year >= 100
  {
    hide DateUtc, YearFromTime, MonthFromTime, DateFromTime, RealDate;
    RejectionNamesTheReason(flags, name);
    if DateShaped(value) { ReadBackExactly(Written(value)); }
  }

  /** Which of the three complaints is made. */
  lemma RejectionNamesTheReason(flags: CliArgs.Flags, name: string)
    ensures GetDueDateFlag(flags, name) == Rejected(Missing) <==>
              !(name in flags && flags[name].Text? && flags[name].text != "")
    ensures GetDueDateFlag(flags, name) == Rejected(NotDateShaped) <==>
              name in flags && flags[name].Text? && flags[name].text != "" && !DateShaped(flags[name].text)
    ensures GetDueDateFlag(flags, name) == Rejected(NotRealDate) <==>
              name in flags && flags[name].Text? && DateShaped(flags[name].text) &&
              !(RealDate(Written(flags[name].text)) && Written(flags[name].text).year >= 100)
  {
    hide DateUtc, YearFromTime, MonthFromTime, DateFromTime, RealDate, Number;
    if name in flags && flags[name].Text? && DateShaped(flags[name].text) {
      ReadBackExactly(Written(flags[name].text));
    }
  }

  // ---- Every date can be written ----

  function DigitChar(n: nat): (c: char)
    requires n <= 9
    ensures IsDigit(c) && DigitValue(c) == n
  {
    ('0' as int + n) as char
  }

  function TextOf(c: Civil): string
    requires 0 <= c.year <= 9999 && 0 <= c.month <= 99 && 0 <= c.day <= 99
  {
    [DigitChar(c.year / 1000), DigitChar(c.year / 100 % 10), DigitChar(c.year / 10 % 10), DigitChar(c.year % 10), '-',
     DigitChar(c.month / 10), DigitChar(c.month % 10), '-', DigitChar(c.day / 10), DigitChar(c.day % 10)]
  }

  /** The YYYY-MM-DD text of every date from year 100 to 9999 is accepted. */
  lemma EveryDateIsAccepted(c: Civil, flags: CliArgs.Flags, name: string)
    requires RealDate(c) && 100 <= c.year <= 9999
    requires name in flags && flags[name] == CliArgs.Text(TextOf(c))
    ensures GetDueDateFlag(flags, name) == Accepted(TextOf(c))
  {
    hide GetDueDateFlag, TextOf, Written;
    TextReadsBack(c);
    AcceptedExactly(flags, name, TextOf(c));
  }

  predicate Spells(s: string, c: Civil)
    requires DateShaped(s)
  {
    DigitValue(s[0]) == c.year / 1000 && DigitValue(s[1]) == c.year / 100 % 10 &&
    DigitValue(s[2]) == c.year / 10 % 10 && DigitValue(s[3]) == c.year % 10 &&
    DigitValue(s[5]) == c.month / 10 && DigitValue(s[6]) == c.month % 10 &&
    DigitValue(s[8]) == c.day / 10 && DigitValue(s[9]) == c.day % 10
  }

  lemma TextReadsBack(c: Civil)
    requires 0 <= c.year <= 9999 && 0 <= c.month <= 99 && 0 <= c.day <= 99
    ensures DateShaped(TextOf(c)) && Written(TextOf(c)) == c
  {
    hide Number, DigitChar, DigitValue, TextOf;
    var s := TextOf(c);
    TextIsShaped(c);
    FourDigits(s[..4]);
    TwoDigits(s[5..7]);
    TwoDigits(s[8..]);
    DigitsOf(c.year);
    DigitsOf(c.month);
    DigitsOf(c.day);
  }

  lemma TextIsShaped(c: Civil)
    requires 0 <= c.year <= 9999 && 0 <= c.month <= 99 && 0 <= c.day <= 99
    ensures DateShaped(TextOf(c)) && Spells(TextOf(c), c)
  {
    hide DigitChar, DigitValue;
  }

  lemma DigitsOf(n: nat)
    ensures n == 1000 * (n / 1000) + 100 * (n / 100 % 10) + 10 * (n / 10 % 10) + n % 10
    ensures n <= 99 ==> n == 10 * (n / 10) + n % 10
  {
    assert n / 100 == n / 10 / 10 && n / 1000 == n / 100 / 10;
  }

  lemma DigitsFrom(a: nat, b: nat, c: nat, d: nat)
    requires a <= 9 && b <= 9 && c <= 9 && d <= 9
    ensures var n := 1000 * a + 100 * b + 10 * c + d;
      n / 1000 == a && n / 100 % 10 == b && n / 10 % 10 == c && n % 10 == d
    ensures (10 * c + d) / 10 == c && (10 * c + d) % 10 == d
  {
    var n := 1000 * a + 100 * b + 10 * c + d;
    assert n / 1000 == a;
    assert n / 100 == 10 * a + b;
    assert n / 10 == 100 * a + 10 * b + c;
  }

  lemma WrittenIsSpelt(s: string)
    requires DateShaped(s)
    ensures Spells(s, Written(s))
  {
    hide Number, DigitValue;
    FourDigits(s[..4]);
    TwoDigits(s[5..7]);
    TwoDigits(s[8..]);
    DigitsFrom(DigitValue(s[0]), DigitValue(s[1]), DigitValue(s[2]), DigitValue(s[3]));
    DigitsFrom(0, 0, DigitValue(s[5]), DigitValue(s[6]));
    DigitsFrom(0, 0, DigitValue(s[8]), DigitValue(s[9]));
  }

  /** A shaped text is the only one for its three numbers. */
  lemma WrittenIsInjective(s: string, u: string)
    requires DateShaped(s) && DateShaped(u) && Written(s) == Written(u)
    ensures s == u
  {
    hide Number, DigitValue, Written;
    WrittenIsSpelt(s);
    WrittenIsSpelt(u);
    forall i | 0 <= i < 10 ensures s[i] == u[i] {
      if i != 4 && i != 7 { SameDigit(s[i], u[i]); }
    }
  }

  lemma SameDigit(c: char, d: char)
    requires IsDigit(c) && IsDigit(d) && DigitValue(c) == DigitValue(d)
    ensures c == d
  {
  }
}
