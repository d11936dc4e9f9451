/**
 The Gregorian calendar of drivers/hal_rtc.c: leap years, month lengths, the two next-day
 routines, the day interval between two dates and the weekday formula.

 Everything is measured against `DayNumber`, a closed form that the driver does not contain.
 */
module Calendar {
  import opened Words

  datatype Date = Date(year: nat, month: nat, day: nat)

  const MONTH_DAYS_LEAP: seq<nat> := [0, 31, 29, 31, 30, 31, 30, 31, 31, 30, 31, 30, 31]
  const MONTH_DAYS: seq<nat> := [0, 31, 28, 31, 30, 31, 30, 31, 31, 30, 31, 30, 31]
  const FEB_OF_LEAP_YEAR: nat := 29

  predicate LeapRule(y: nat) {
    if y % 100 != 0 then y % 4 == 0 else y % 400 == 0
  }

  /** `leapyear`; its parameter is a `uint16_t`, so wider years are truncated first. */
  predicate LeapYear(year: nat) { LeapRule(U16(year)) }

  /** `rtc_year_to_day` */
  function YearToDay(year: nat): nat {
    if LeapYear(year) then 366 else 365
  }

  /** `rtc_monthday_num`; the tables have thirteen entries. */
  function MonthDayNum(year: nat, month: nat): nat
    requires month <= 12
  {
    if LeapYear(year) then MONTH_DAYS_LEAP[month] else MONTH_DAYS[month]
  }

  predicate ValidDate(d: Date) {
    d.year < TWO16 && 1 <= d.month <= 12 && 1 <= d.day <= MonthDayNum(d.year, d.month)
  }

  /** What the interval routines can be given: a 23-bit year, a month whose predecessors are in the table, a 5-bit day. */
  predicate InRange(d: Date) {
    d.year < 0x80_0000 && d.month <= 13 && d.day < 32
  }

  // ---------------------------------------------------------------------------------------------
  // Reference: Gregorian day numbers
  // ---------------------------------------------------------------------------------------------

  /** How many of 0 .. y-1 are multiples of `m`. */
  function Multiples(y: nat, m: nat): nat
    requires m > 0
  {
    (y + m - 1) / m
  }

  /** Days in the years 0 .. year-1 of the proleptic Gregorian calendar. */
  function Gregorian(year: nat): int {
    365 * year + Multiples(year, 4) - Multiples(year, 100) + Multiples(year, 400)
  }

  /** Days in 65536 years. */
  const BLOCK_DAYS: nat := 23936532

  /** The same with the driver's leap years, which repeat every 65536 years. */
  function DaysBeforeYear(year: nat): (days: nat) {
    GregorianBounds(year % TWO16);
    year / TWO16 * BLOCK_DAYS + Gregorian(year % TWO16)
  }

  /** Days in the months 1 .. month-1. */
  function DaysBeforeMonth(year: nat, month: nat): nat
    requires month <= 13
  {
    if month <= 1 then 0 else DaysBeforeMonth(year, month - 1) + MonthDayNum(year, month - 1)
  }

  function DayOfYear(d: Date): nat
    requires d.month <= 13
  {
    DaysBeforeMonth(d.year, d.month) + d.day
  }

  /** 1 for 1 January of year 0, growing by one per Gregorian day. */
  function DayNumber(d: Date): nat
    requires d.month <= 13
  {
    DaysBeforeYear(d.year) + DayOfYear(d)
  }

  predicate Before(a: Date, b: Date) {
    a.year < b.year
    || (a.year == b.year && (a.month < b.month || (a.month == b.month && a.day < b.day)))
  }

  lemma MultiplesOf(y: nat, m: nat)
    requires m > 0
    ensures Multiples(y, m) == y / m + if y % m == 0 then 0 else 1
    ensures Multiples(y + 1, m) == y / m + 1
  {
    var q, r := y / m, y % m;
    assert y == q * m + r;
    assert (q + 1) * m == q * m + m;
    if r == 0 {
      Quotient(y + m - 1, q, m, m - 1);
    } else {
      Quotient(y + m - 1, q + 1, m, r - 1);
    }
    Quotient(y + m, q + 1, m, r);
  }

  lemma DivisorChain(y: nat)
    ensures y % 400 == 0 ==> y % 100 == 0
    ensures y % 100 == 0 ==> y % 4 == 0
  {
    if y % 100 == 0 {
      Quotient(y, 25 * (y / 100), 4, 0);
    }
    if y % 400 == 0 {
      Quotient(y, 4 * (y / 400), 100, 0);
    }
  }

  lemma GregorianBounds(y: nat)
    ensures 365 * y <= Gregorian(y) <= 366 * y + 1
  {
    hide Multiples;
    MultiplesOf(y, 4);
    MultiplesOf(y, 100);
    MultiplesOf(y, 400);
    QuotientOrder(y);
  }

  lemma QuotientOrder(y: nat)
    ensures y / 400 <= y / 100 <= y / 4 <= y
    ensures y / 100 <= y / 4 - y / 100 || y < 100
  {
  }

  /** The closed form of the Gregorian calendar steps by the length of the year. */
  lemma GregorianStep(y: nat)
    ensures Gregorian(y + 1) == Gregorian(y) + if LeapRule(y) then 366 else 365
    ensures Gregorian(y + 1) == 365 * y + 366 + y / 4 - y / 100 + y / 400
  {
    hide Multiples;
    MultiplesOf(y, 4);
    MultiplesOf(y, 100);
    MultiplesOf(y, 400);
    DivisorChain(y);
  }

  lemma GregorianEnds()
    ensures Gregorian(0) == 0 && Gregorian(TWO16) == BLOCK_DAYS
  {
  }

  lemma YearStep(year: nat)
    ensures DaysBeforeYear(year + 1) == DaysBeforeYear(year) + YearToDay(year)
  {
    hide Gregorian, LeapRule;
    var q, r := year / TWO16, year % TWO16;
    GregorianStep(r);
    GregorianEnds();
    if r + 1 < TWO16 {
      Quotient(year + 1, q, TWO16, r + 1);
    } else {
      Quotient(year + 1, q + 1, TWO16, 0);
    }
  }

  /** The driver's calendar is the Gregorian one up to 1 January 65536. */
  lemma GregorianBelow(year: nat)
    requires year <= TWO16
    ensures DaysBeforeYear(year) == Gregorian(year)
  {
    hide Gregorian;
    GregorianEnds();
  }

  /** It first parts from it after 65636, a leap year that the driver does not see. */
  lemma NotGregorianLater()
    ensures !LeapYear(65636) && LeapRule(65636)
    ensures DaysBeforeYear(65636) == Gregorian(65636) && DaysBeforeYear(65637) == Gregorian(65637) - 1
  {
  }

  lemma {:induction false} YearsGrow(a: nat, b: nat)
    requires a <= b
    ensures DaysBeforeYear(a) + 365 * (b - a) <= DaysBeforeYear(b)
  {
    hide DaysBeforeYear;
    if a < b {
      YearStep(b - 1);
      YearsGrow(a, b - 1);
    }
  }

  /** The cumulative month table that the driver spells out twice (`leapMonthDays`, `notleapMonthDays`). */
  const CUMULATIVE_LEAP: seq<nat> := [0, 31, 60, 91, 121, 152, 182, 213, 244, 274, 305, 335, 366]
  const CUMULATIVE: seq<nat> := [0, 31, 59, 90, 120, 151, 181, 212, 243, 273, 304, 334, 365]

  function CumulativeTable(leap: bool): seq<nat> {
    if leap then CUMULATIVE_LEAP else CUMULATIVE
  }

  lemma {:induction false} CumulativeMonths(year: nat, month: nat)
    requires 1 <= month <= 13
    ensures DaysBeforeMonth(year, month) == CumulativeTable(LeapYear(year))[month - 1]
  {
    hide LeapYear;
    if month > 1 {
      CumulativeMonths(year, month - 1);
    }
  }

  lemma {:induction false} MonthsGrow(year: nat, a: nat, b: nat)
    requires 1 <= a <= b <= 13
    ensures DaysBeforeMonth(year, a) <= DaysBeforeMonth(year, b)
  {
    hide MonthDayNum;
    if a < b {
      MonthsGrow(year, a, b - 1);
    }
  }

  lemma DayOfYearBounds(d: Date)
    requires ValidDate(d)
    ensures 1 <= DayOfYear(d) <= DaysBeforeMonth(d.year, d.month + 1) <= YearToDay(d.year)
  {
    MonthsGrow(d.year, d.month + 1, 13);
    CumulativeMonths(d.year, 13);
    hide MonthDayNum, LeapYear;
  }

  lemma BeforeIsSmaller(a: Date, b: Date)
    requires ValidDate(a) && ValidDate(b) && Before(a, b)
    ensures DayNumber(a) < DayNumber(b)
  {
    hide DaysBeforeYear, LeapYear, MonthDayNum;
    DayOfYearBounds(a);
    DayOfYearBounds(b);
    if a.year < b.year {
      YearStep(a.year);
      YearsGrow(a.year + 1, b.year);
    } else if a.month < b.month {
      MonthsGrow(a.year, a.month + 1, b.month);
    }
  }

  /** Day numbers order dates exactly as year, month, day do. */
  lemma DayNumberOrder(a: Date, b: Date)
    requires ValidDate(a) && ValidDate(b)
    ensures DayNumber(a) < DayNumber(b) <==> Before(a, b)
    ensures DayNumber(a) == DayNumber(b) <==> a == b
  {
    hide DayNumber;
    if Before(a, b) {
      BeforeIsSmaller(a, b);
    } else if Before(b, a) {
      BeforeIsSmaller(b, a);
    }
  }

  // ---------------------------------------------------------------------------------------------
  // The two next-day routines
  // ---------------------------------------------------------------------------------------------

  /** `rtc_next_time_day_period` */
  function NextDay(d: Date): Date
    requires d.month <= 12
  {
    if d.day == MonthDayNum(d.year, d.month) then
      if d.month == 12 then Date(d.year + 1, 1, 1) else Date(d.year, d.month + 1, 1)
    else
      Date(d.year, d.month, d.day + 1)
  }

  lemma NextDayIsNext(d: Date)
    requires ValidDate(d)
    ensures DayNumber(NextDay(d)) == DayNumber(d) + 1
    ensures NextDay(d).year < TWO16 ==> ValidDate(NextDay(d))
    ensures Before(d, NextDay(d))
  {
    hide LeapYear, DaysBeforeYear, MonthDayNum;
    if d.month == 12 {
      YearStep(d.year);
      CumulativeMonths(d.year, 13);
      DaysOfMonth(d.year + 1, 1);
    } else {
      DaysOfMonth(d.year, d.month + 1);
    }
  }

  /** The next day with a 16-bit year. */
  function WrappedNext(d: Date): Date
    requires d.month <= 12
  {
    NextDay(d).(year := U16(NextDay(d).year))
  }

  lemma WrappedNextIsNext(d: Date)
    requires ValidDate(d)
    ensures var w := WrappedNext(d);
            ValidDate(w) && (d != Date(0xFFFF, 12, 31) <==> DayNumber(w) == DayNumber(d) + 1)
  {
    hide DayNumber, LeapYear, MonthDayNum;
    NextDayIsNext(d);
    DaysOfMonth(d.year, d.month);
    DaysOfMonth(0, 1);
    if d.year > 0 {
      YearZeroIsFirst(d);
    }
  }

  lemma YearZeroIsFirst(d: Date)
    requires ValidDate(d) && d.year > 0
    ensures DayNumber(d) > DayNumber(Date(0, 1, 1)) == 1
  {
    BeforeIsSmaller(Date(0, 1, 1), d);
  }

  /** The month length as `update_days` looks it up. */
  lemma DaysOfMonth(year: nat, month: nat)
    requires 1 <= month <= 12
    ensures 28 <= MonthDayNum(year, month) <= 31
    ensures MonthDayNum(year, month) == if LeapYear(year) && month == 2 then FEB_OF_LEAP_YEAR else MONTH_DAYS[month]
  {
  }

  lemma DaysOfValid(d: Date)
    requires ValidDate(d)
    ensures d.year < TWO16 && 1 <= d.month <= 12 && 1 <= d.day <= MonthDayNum(d.year, d.month) <= 31
    ensures MonthDayNum(d.year, d.month) ==
            if LeapYear(d.year) && d.month == 2 then FEB_OF_LEAP_YEAR else MONTH_DAYS[d.month]
  {
    hide LeapYear;
    DaysOfMonth(d.year, d.month);
  }

  /** The global `sys_global_time`: an 8-bit day and month and a 16-bit year, stepped by the day interrupt. */
  class SystemDate {
    var year: nat
    var month: nat
    var day: nat

    ghost function Value(): Date
      reads this
    {
      Date(year, month, day)
    }

    /** `hal_rtc_init` sets 1 January 1970. */
    constructor ()
      ensures Value() == Date(1970, 1, 1) && ValidDate(Value())
    {
      year, month, day := 1970, 1, 1;
    }

    /**
     `update_days`: from a valid date it goes to the day `NextDay` gives, except that the 16-bit
     year turns 31 December 65535 into 1 January of year 0.
     */
    method UpdateDays()
      requires ValidDate(Value())
      modifies this
      ensures ValidDate(Value())
      ensures Value() == WrappedNext(old(Value()))
      ensures old(Value()) != Date(0xFFFF, 12, 31) <==> DayNumber(Value()) == DayNumber(old(Value())) + 1
    {
      hide DayNumber, LeapYear, MonthDayNum, ValidDate;
      ghost var d := Value();
      WrappedNextIsNext(d);
      DaysOfValid(d);
      day := U8(day + 1);
      var daysOfMonth;
      if !(LeapYear(year) && month == 2) {
        daysOfMonth := MONTH_DAYS[month];
      } else {
        daysOfMonth := FEB_OF_LEAP_YEAR;
      }
      if day > daysOfMonth {
        day := 1;
        month := U8(month + 1);
        if month > 12 {
          month := 1;
          year := U16(year + 1);
          assert Value() == WrappedNext(d);
        } else {
          assert Value() == WrappedNext(d);
        }
      } else {
        assert Value() == WrappedNext(d);
      }
    }
  }

  // ---------------------------------------------------------------------------------------------
  // rtc_days_interval
  // ---------------------------------------------------------------------------------------------

  /** What `rtc_days_interval` returns: a true difference only when the years are in order. */
  function IntervalDays(now: Date, tag: Date): nat
    requires now.month <= 13 && tag.month <= 13
  {
    if now.year <= tag.year
    then U32(DayNumber(tag) - DayNumber(now))
    else U32(YearToDay(now.year) - DayOfYear(now) + DayOfYear(tag))
  }

  /** `rtc_days_interval`, with its two month loops and its year loop over 32-bit counters. */
  method DaysInterval(now: Date, tag: Date) returns (r: nat)
    requires InRange(now) && InRange(tag)
    ensures r == IntervalDays(now, tag)
  {
    hide DaysBeforeYear, LeapYear, MonthDayNum, U32;
    var passNow := 0;
    for num := 1 to if now.month < 1 then 1 else now.month
      invariant passNow == DaysBeforeMonth(now.year, num)
    {
      passNow := passNow + MonthDayNum(now.year, num);
    }
    passNow := passNow + now.day;

    var passTag := 0;
    for num := 1 to if tag.month < 1 then 1 else tag.month
      invariant passTag == DaysBeforeMonth(tag.year, num)
    {
      passTag := passTag + MonthDayNum(tag.year, num);
    }
    passTag := passTag + tag.day;

    if now.year == tag.year {
      return U32(passTag - passNow);
    }
    var sum := U32(YearToDay(now.year) - passNow + passTag);
    var num := now.year + 1;
    YearStep(now.year);
    while num < tag.year
      invariant now.year + 1 <= num && (now.year < tag.year ==> num <= tag.year) && (tag.year < now.year ==> num == now.year + 1)
      invariant sum == U32(passTag - passNow + DaysBeforeYear(num) - DaysBeforeYear(now.year))
    {
      YearStep(num);
      U32Absorbs(passTag - passNow + DaysBeforeYear(num) - DaysBeforeYear(now.year), YearToDay(num));
      sum := U32(sum + YearToDay(num));
      num := num + 1;
    }
    return sum;
  }

  lemma DayNumberSmall(d: Date)
    requires InRange(d)
    ensures DayOfYear(d) < 1000 && DayNumber(d) < 0xB700_0000
    ensures d.year < TWO16 ==> DayNumber(d) < 0x180_0000
  {
    hide LeapYear, Gregorian;
    if d.month >= 1 {
      CumulativeMonths(d.year, d.month);
    }
    GregorianBounds(d.year % TWO16);
    assert d.year / TWO16 <= 127;
  }

  /** The interval is the difference of Gregorian day numbers exactly when the target's year is not earlier. */
  lemma IntervalExact(now: Date, tag: Date)
    requires InRange(now) && InRange(tag)
    ensures IntervalDays(now, tag) == U32(DayNumber(tag) - DayNumber(now)) <==> now.year <= tag.year
  {
    hide DaysBeforeYear, LeapYear;
    if tag.year < now.year {
      YearStep(now.year);
      YearsGrow(tag.year, now.year);
      DayNumberSmall(tag);
      DayNumberSmall(now);
      var code := YearToDay(now.year) - DayOfYear(now) + DayOfYear(tag);
      var gap := DayNumber(tag) - DayNumber(now);
      assert 365 <= code - gap < TWO32;
    }
  }

  /** Hence intervals add up over an intermediate date. */
  lemma IntervalAdditive(a: Date, b: Date, c: Date)
    requires InRange(a) && InRange(b) && InRange(c)
    requires a.year <= b.year <= c.year
    ensures IntervalDays(a, c) == U32(IntervalDays(a, b) + IntervalDays(b, c))
  {
    hide DayNumber, DayOfYear, YearToDay, U32;
    var ab := DayNumber(b) - DayNumber(a);
    var bc := DayNumber(c) - DayNumber(b);
    U32Absorbs(ab, U32(bc));
    U32Absorbs(bc, ab);
  }

  // ---------------------------------------------------------------------------------------------
  // rtc_get_weekday
  // ---------------------------------------------------------------------------------------------

  const WEEK: seq<string> := ["Sun", "Mon", "Tues", "Wed", "Thur", "Fri", "Sat"]

  /** C integer division, rounding toward zero. */
  function CDiv(a: int, b: int): int
    requires b > 0
  {
    if a >= 0 then a / b else -((-a) / b)
  }

  /** The index that `rtc_get_weekday` computes before it looks up the name. */
  function WeekdayIndex(d: Date): int {
    var (y, m) := if d.month == 1 || d.month == 2 then (d.year - 1, d.month + 12) else (d.year, d.month);
    (d.day + 1 + 2 * m + CDiv(3 * (m + 1), 5) + y + CDiv(y, 4) - CDiv(y, 100) + CDiv(y, 400)) % 7
  }

  const EPOCH: Date := Date(1970, 1, 1)

  /** Weekday counted in days from Thursday 1 January 1970. */
  function TrueWeekday(d: Date): nat
    requires d.month <= 13
  {
    (DayNumber(d) - DayNumber(EPOCH) + 4) % 7
  }

  /** Leap years up to `y`, as the weekday formula counts them. */
  function LeapDays(y: nat): int { y / 4 - y / 100 + y / 400 }

  lemma YearTerm(y: nat)
    requires y < TWO16
    ensures DaysBeforeYear(y + 1) == 365 * y + 366 + LeapDays(y)
    ensures DaysBeforeYear(y) + (if LeapYear(y) then 1 else 0) == 365 * y + 1 + LeapDays(y)
  {
    hide DaysBeforeYear, LeapYear;
    GregorianBelow(y + 1);
    YearStep(y);
    hide Gregorian;
    GregorianStep(y);
  }

  /** The month term of the formula agrees with the month table modulo 7. */
  lemma MonthTerm(m: nat)
    requires 1 <= m <= 12
    ensures 3 <= m ==> CUMULATIVE[m - 1] + 5 == 2 * m + 3 * (m + 1) / 5 + 28 * (m - 1)
    ensures m <= 2 ==> CUMULATIVE[m - 1] + 6 == 2 * (m + 12) + 3 * (m + 13) / 5 + 28 * (m - 2)
  {
    match m
    case 1 => case 2 => case 3 => case 4 => case 5 => case 6 =>
    case 7 => case 8 => case 9 => case 10 => case 11 => case 12 =>
  }

  lemma TableOfYear(year: nat, m: nat)
    requires 1 <= m <= 12
    ensures DaysBeforeMonth(year, m) == CUMULATIVE[m - 1] + if LeapYear(year) && 3 <= m then 1 else 0
  {
    hide LeapYear;
    CumulativeMonths(year, m);
    match m
    case 1 => case 2 => case 3 => case 4 => case 5 => case 6 =>
    case 7 => case 8 => case 9 => case 10 => case 11 => case 12 =>
  }

  /** Numbers that differ by a multiple of seven have the same weekday. */
  lemma SameWeekday(a: int, b: int, q: int)
    requires a == b + 7 * q
    ensures a % 7 == b % 7
  {
  }

  lemma EpochNumber()
    ensures DayNumber(EPOCH) == 719529
  {
    hide LeapYear, DaysBeforeYear, LeapDays;
    YearTerm(1969);
    EpochLeapDays();
    TableOfYear(1970, 1);
  }

  lemma EpochLeapDays()
    ensures LeapDays(1969) == 477
  {
  }

  /** The formula's sum, five below a multiple of 7 from the day number, names the right day. */
  lemma WeekdayFromSum(d: Date, sum: int, q: int)
    requires d.month <= 12
    requires DayNumber(d) == sum - 5 + 7 * q
    ensures sum % 7 == TrueWeekday(d)
  {
    hide DayNumber;
    EpochNumber();
    SameWeekday(DayNumber(d) - DayNumber(EPOCH) + 4, sum, q - 102790);
  }

  /** The formula without the shift of January and February. */
  lemma WeekdaySum(d: Date, y: nat, m: nat)
    requires (y, m) == if d.month <= 2 then (d.year - 1, d.month + 12) else (d.year, d.month)
    requires d.month >= 1
    ensures WeekdayIndex(d) == (d.day + 1 + (2 * m + 3 * (m + 1) / 5) + y + LeapDays(y)) % 7
  {
  }

  lemma WeekdayLateMonths(d: Date)
    requires d.year < TWO16 && 3 <= d.month <= 12
    ensures WeekdayIndex(d) == TrueWeekday(d)
  {
    hide DaysBeforeYear, LeapYear, LeapDays, WeekdayIndex, TrueWeekday;
    var y, m := d.year, d.month;
    YearTerm(y);
    MonthTerm(m);
    TableOfYear(y, m);
    WeekdaySum(d, y, m);
    WeekdayFromSum(d, d.day + 1 + (2 * m + 3 * (m + 1) / 5) + y + LeapDays(y), 52 * y + 4 * (m - 1));
  }

  lemma WeekdayEarlyMonths(d: Date)
    requires 0 < d.year <= TWO16 && 1 <= d.month <= 2
    ensures WeekdayIndex(d) == TrueWeekday(d)
  {
    hide DaysBeforeYear, LeapYear, LeapDays, WeekdayIndex, TrueWeekday;
    var y, m := d.year - 1, d.month + 12;
    YearTerm(y);
    MonthTerm(d.month);
    TableOfYear(d.year, d.month);
    WeekdaySum(d, y, m);
    WeekdayFromSum(d, d.day + 1 + (2 * m + 3 * (m + 1) / 5) + y + LeapDays(y), 52 * (y + 1) + 4 * (d.month - 2));
  }

  lemma YearZeroTerms(d: Date)
    requires d.year == 0 && 1 <= d.month <= 2
    ensures DayNumber(d) == 31 * (d.month - 1) + d.day
    ensures WeekdayIndex(d) == (d.day + 31 + 3 * d.month) % 7
  {
    hide LeapYear, DaysBeforeYear, Gregorian;
    TableOfYear(0, d.month);
    GregorianBelow(0);
    GregorianEnds();
    YearZeroDivisions();
    hide CDiv;
    if d.month == 1 {
      assert WeekdayIndex(d) == (d.day + 1 + 26 + 8 - 1) % 7;
    } else {
      assert WeekdayIndex(d) == (d.day + 1 + 28 + 9 - 1) % 7;
    }
  }

  lemma YearZeroDivisions()
    ensures CDiv(-1, 4) == 0 && CDiv(-1, 100) == 0 && CDiv(-1, 400) == 0
    ensures CDiv(42, 5) == 8 && CDiv(45, 5) == 9
  {
  }

  lemma WeekdayYearZero(d: Date)
    requires d.year == 0 && 1 <= d.month <= 2
    ensures WeekdayIndex(d) == (TrueWeekday(d) + 1) % 7 != TrueWeekday(d)
  {
    hide DayNumber, WeekdayIndex;
    EpochNumber();
    YearZeroTerms(d);
    var n := DayNumber(d) - DayNumber(EPOCH) + 4;
    SameWeekday(d.day + 31 + 3 * d.month, n + 1, if d.month == 1 then 102794 else 102790);
    NextWeekday(n);
    assert (n % 7 + 1) % 7 != n % 7;
  }

  /** The formula is right for every valid date except January and February of year 0. */
  lemma WeekdayExact(d: Date)
    requires 1 <= d.month <= 12 && (d.year < TWO16 || (d.year == TWO16 && d.month <= 2))
    ensures WeekdayIndex(d) == TrueWeekday(d) <==> !(d.year == 0 && d.month <= 2)
    ensures d.year == 0 && d.month <= 2 ==> WeekdayIndex(d) == (TrueWeekday(d) + 1) % 7
    ensures 0 <= WeekdayIndex(d) < 7
  {
    hide DayNumber;
    if d.month >= 3 {
      WeekdayLateMonths(d);
    } else if d.year > 0 {
      WeekdayEarlyMonths(d);
    } else {
      WeekdayYearZero(d);
    }
  }

  lemma NextWeekday(a: int)
    ensures (a + 1) % 7 == (a % 7 + 1) % 7
  {
    SameWeekday(a % 7 + 1, a + 1, -(a / 7));
  }

  /** So the weekday moves on by one from every valid date to the next, over month and year ends, but not on 29 February 0. */
  lemma WeekdaySuccessor(d: Date)
    requires ValidDate(d)
    ensures NextDay(d).month <= 12
    ensures WeekdayIndex(NextDay(d)) == (WeekdayIndex(d) + 1) % 7 <==> d != Date(0, 2, 29)
  {
    hide WeekdayIndex, DayNumber, LeapYear, MonthDayNum;
    var n := NextDay(d);
    DaysOfMonth(d.year, d.month);
    LeapZero();
    WeekdayExact(d);
    WeekdayExact(n);
    NextDayIsNext(d);
    var k := DayNumber(d) - DayNumber(EPOCH) + 4;
    NextWeekday(k);
    NextWeekday(k + 1);
    assert (k + 2) % 7 != (k + 1) % 7;
  }

  lemma LeapZero()
    ensures LeapYear(0) && MonthDayNum(0, 2) == 29
  {
  }

  lemma WeekdayAnchor()
    ensures WEEK[WeekdayIndex(EPOCH)] == "Thur"
  {
  }

  /** The names follow each other from there on. */
  lemma WeekdayNames()
    ensures WeekdayIndex(Date(1970, 1, 1)) == 4 && WEEK[4] == "Thur" && WEEK[5] == "Fri" && WEEK[6] == "Sat"
    ensures WEEK[0] == "Sun" && WEEK[1] == "Mon" && WEEK[2] == "Tues" && WEEK[3] == "Wed" && |WEEK| == 7
  {
  }
}
