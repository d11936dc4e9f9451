/**
 Adding a countdown to a date and measuring the seconds between two dates (drivers/hal_rtc.c).

 The driver counts days for addition in a four-year cycle, in which every fourth year is a leap
 year, but counts them for intervals in the Gregorian calendar, and builds the cycle count itself
 out of Gregorian month lengths. The three agree except around years such as 2100, the fourth
 years that are not leap. The lemmas below say exactly where.
 */
module DateArithmetic {
  import opened Words
  import opened Calendar
  import opened PackedDate

  /** `year2days`, without its last entry */
  const CYCLE_OFFSET: seq<nat> := [0, 366, 731, 1096]

  /** Days before 1 January of `year` when every fourth year is a leap year. */
  function CycleBeforeYear(year: nat): nat {
    year / 4 * 1461 + CYCLE_OFFSET[year % 4]
  }

  /** A fourth year that the calendar does not count as leap. */
  predicate SkippedLeap(year: nat) {
    year % 4 == 0 && !LeapYear(year)
  }

  /** After February of such a year the cycle count is a day behind the cycle calendar. */
  function Lag(d: Date): nat {
    if SkippedLeap(d.year) && d.month >= 3 then 1 else 0
  }

  // ---------------------------------------------------------------------------------------------
  // rtc_yeardays_to_days and rtc_days_to_yeardays
  // ---------------------------------------------------------------------------------------------

  function CycleDays(d: Date): nat
    requires d.month <= 13
  {
    CycleBeforeYear(d.year) + DayOfYear(d)
  }

  /** `rtc_yeardays_to_days` */
  method YearDaysToDays(d: Date) returns (days: nat)
    requires d.month <= 13
    ensures days == CycleDays(d)
  {
    days := d.year / 4 * 1461;
    match d.year % 4 {
      case 1 => days := days + 366;
      case 2 => days := days + 731;
      case 3 => days := days + 1096;
      case _ =>
    }
    for i := 1 to if d.month < 1 then 1 else d.month
      invariant days == CycleBeforeYear(d.year) + DaysBeforeMonth(d.year, i)
    {
      days := days + MonthDayNum(d.year, i);
    }
    days := days + d.day;
  }

  /** A date of the cycle calendar. */
  predicate CycleValid(d: Date) {
    1 <= d.month <= 12
    && 1 <= d.day <= CumulativeTable(d.year % 4 == 0)[d.month] - CumulativeTable(d.year % 4 == 0)[d.month - 1]
  }

  /** The count that belongs to the cycle calendar. */
  function CycleNumber(d: Date): nat
    requires 1 <= d.month <= 13
  {
    CycleBeforeYear(d.year) + CumulativeTable(d.year % 4 == 0)[d.month - 1] + d.day
  }

  lemma CycleYearStep(year: nat)
    ensures CycleBeforeYear(year + 1) == CycleBeforeYear(year) + if year % 4 == 0 then 366 else 365
  {
    if year % 4 == 3 {
      assert (year + 1) / 4 == year / 4 + 1;
    } else {
      assert (year + 1) / 4 == year / 4 && (year + 1) % 4 == year % 4 + 1;
    }
  }

  lemma {:induction false} CycleYearsGrow(a: nat, b: nat)
    requires a <= b
    ensures CycleBeforeYear(a) <= CycleBeforeYear(b)
    decreases b
  {
    if a < b {
      CycleYearsGrow(a, b - 1);
      CycleYearStep(b - 1);
    }
  }

  lemma TableGrows(leap: bool, a: nat, b: nat)
    requires a <= b <= 12
    ensures CumulativeTable(leap)[a] <= CumulativeTable(leap)[b] <= if leap then 366 else 365
  {
  }

  lemma CycleBeforeIsSmaller(a: Date, b: Date)
    requires CycleValid(a) && CycleValid(b) && Before(a, b)
    ensures CycleNumber(a) < CycleNumber(b)
  {
    hide CycleBeforeYear, CumulativeTable;
    TableGrows(a.year % 4 == 0, a.month, 12);
    if a.year < b.year {
      CycleYearStep(a.year);
      CycleYearsGrow(a.year + 1, b.year);
      TableGrows(b.year % 4 == 0, 0, b.month - 1);
      TableStart(b.year % 4 == 0);
    } else if a.month < b.month {
      TableGrows(a.year % 4 == 0, a.month, b.month - 1);
    }
  }

  lemma TableStart(leap: bool)
    ensures CumulativeTable(leap)[0] == 0
  {
  }

  /** The cycle calendar's own count orders its dates, so it determines them. */
  lemma CycleOrder(a: Date, b: Date)
    requires CycleValid(a) && CycleValid(b)
    ensures CycleNumber(a) < CycleNumber(b) <==> Before(a, b)
    ensures CycleNumber(a) == CycleNumber(b) <==> a == b
  {
    hide CycleNumber;
    if Before(a, b) {
      CycleBeforeIsSmaller(a, b);
    } else if Before(b, a) {
      CycleBeforeIsSmaller(b, a);
    }
  }

  /**
   `rtc_days_to_yeardays`. The out-parameters keep their old values when there are no days; otherwise
   they get the one date of the cycle calendar whose number is `days`.
   */
  method DaysToYearDays(days: nat, before: Date) returns (d: Date)
    ensures days == 0 ==> d == before
    ensures days > 0 ==> CycleValid(d) && CycleNumber(d) == days
  {
    hide CycleBeforeYear, CumulativeTable;
    if days == 0 {
      return before;
    }
    var years := days / 1461 * 4;
    var remain := days % 1461;
    if remain == 0 {
      d := Date(years - 1, 12, 31);
      YearInCycle(days / 1461 - 1, 3);
      LastOfYear();
    } else if remain <= 366 {
      var m, day := FindMonth(remain, true);
      d := Date(years, m, day);
      YearInCycle(days / 1461, 0);
    } else if remain <= 731 {
      var m, day := FindMonth(remain - 366, false);
      d := Date(years + 1, m, day);
      YearInCycle(days / 1461, 1);
    } else if remain <= 1096 {
      var m, day := FindMonth(remain - 731, false);
      d := Date(years + 2, m, day);
      YearInCycle(days / 1461, 2);
    } else {
      var m, day := FindMonth(remain - 1096, false);
      d := Date(years + 3, m, day);
      YearInCycle(days / 1461, 3);
    }
  }

  lemma YearInCycle(q: nat, r: nat)
    requires r < 4
    ensures (4 * q + r) % 4 == r
    ensures CycleBeforeYear(4 * q + r) == 1461 * q + CYCLE_OFFSET[r]
  {
  }

  lemma LastOfYear()
    ensures CumulativeTable(false)[11] == 334 && CumulativeTable(false)[12] == 365
  {
  }

  /** The month search, written four times in the source: the loop runs over all months and keeps the one that matches. */
  method FindMonth(remain: nat, leap: bool) returns (month: nat, day: nat)
    requires 1 <= remain <= if leap then 366 else 365
    ensures 1 <= month <= 12 && 1 <= day
    ensures CumulativeTable(leap)[month - 1] + day == remain <= CumulativeTable(leap)[month]
  {
    var table := CumulativeTable(leap);
    month, day := 0, 0;
    for i := 1 to 13
      invariant month == 0 ==> table[i - 1] < remain
      invariant month != 0 ==> 1 <= month < i && table[month - 1] < remain <= table[month] && day == remain - table[month - 1]
    {
      if table[i - 1] < remain <= table[i] {
        month := i;
        day := remain - table[i - 1];
      }
    }
  }

  /** The count the driver computes is the cycle calendar's count less the lag. */
  lemma CycleDaysLag(d: Date)
    requires 1 <= d.month <= 12
    ensures CycleDays(d) == CycleNumber(d) - Lag(d)
  {
    hide CycleBeforeYear, LeapYear;
    CumulativeMonths(d.year, d.month);
    if LeapYear(d.year) {
      LeapIsFourth(d.year);
    }
    TablesDiffer(d.month);
  }

  lemma LeapIsFourth(year: nat)
    requires LeapYear(year)
    ensures year % 4 == 0
  {
    var q, y := year / TWO16, U16(year);
    DivisorChain(y);
    Quotient(year, 16384 * q + y / 4, 4, y % 4);
  }

  lemma TablesDiffer(month: nat)
    requires 1 <= month <= 12
    ensures CUMULATIVE_LEAP[month - 1] == CUMULATIVE[month - 1] + if month >= 3 then 1 else 0
    ensures CUMULATIVE_LEAP[month] - CUMULATIVE_LEAP[month - 1] == MONTH_DAYS_LEAP[month]
    ensures CUMULATIVE[month] - CUMULATIVE[month - 1] == MONTH_DAYS[month]
    ensures MONTH_DAYS[month] <= MONTH_DAYS_LEAP[month]
  {
  }

  lemma ValidIsCycleValid(d: Date)
    requires ValidDate(d)
    ensures CycleValid(d)
  {
    hide LeapYear;
    TablesDiffer(d.month);
    if LeapYear(d.year) {
      LeapIsFourth(d.year);
    }
  }

  /** From a date to days and back: the same date, exactly outside the late months of a skipped leap year. */
  lemma DateRoundTrip(d: Date, back: Date)
    requires ValidDate(d) && CycleValid(back) && CycleNumber(back) == CycleDays(d)
    ensures back == d <==> Lag(d) == 0
  {
    hide CycleNumber, CycleDays, MonthDayNum;
    ValidIsCycleValid(d);
    CycleDaysLag(d);
    CycleOrder(d, back);
  }

  /** From days to a date and back: the same count under the same condition on the date found. */
  lemma DaysRoundTrip(days: nat, d: Date)
    requires CycleValid(d) && CycleNumber(d) == days
    ensures CycleDays(d) == days <==> Lag(d) == 0
  {
    hide CycleNumber, CycleDays;
    CycleDaysLag(d);
  }

  // ---------------------------------------------------------------------------------------------
  // rtc_date_add
  // ---------------------------------------------------------------------------------------------

  /** Seconds in a date or a countdown, by the driver's own day count. */
  function CountSeconds(t: DateTime): nat
    requires t.date.month <= 13
  {
    CycleDays(t.date) * 86400 + SecondOfDay(t)
  }

  /** Whole seconds that the two millisecond fields add up to. */
  function MsCarry(now: DateTime, tag: DateTime): (carry: nat)
    ensures 0 <= now.ms + tag.ms - 1000 * carry < 1000
  {
    (now.ms + tag.ms) / 1000
  }

  function SumSeconds(now: DateTime, tag: DateTime): nat
    requires now.date.month <= 13 && tag.date.month <= 13
  {
    CountSeconds(now) + CountSeconds(tag) + MsCarry(now, tag)
  }

  /** The sum is both operands to the millisecond, rounded down to a second. */
  lemma SumToTheSecond(now: DateTime, tag: DateTime)
    requires now.date.month <= 13 && tag.date.month <= 13
    ensures var ms := 1000 * (CountSeconds(now) + CountSeconds(tag)) + now.ms + tag.ms;
            1000 * SumSeconds(now, tag) <= ms < 1000 * SumSeconds(now, tag) + 1000
  {
    hide CountSeconds;
  }

  const LAST_PACKED_DAY: nat := 1461 * 0x20_0000

  /** The sum lies in the 23-bit range of packed years. */
  predicate SumFits(now: DateTime, tag: DateTime)
    requires now.date.month <= 13 && tag.date.month <= 13
  {
    0 < SumSeconds(now, tag) / 86400 <= LAST_PACKED_DAY
  }

  /** `r` is a time of the cycle calendar, on a whole second, as far from its start as the two operands together. */
  ghost predicate IsSum(now: DateTime, tag: DateTime, r: DateTime)
    requires now.date.month <= 13 && tag.date.month <= 13
  {
    CycleValid(r.date) && r.hour < 24 && r.min < 60 && r.sec < 60 && r.ms == 0
    && CycleNumber(r.date) * 86400 + SecondOfDay(r) == SumSeconds(now, tag)
  }

  /**
   The fields that `rtc_date_add` packs, for any operands: the total modulo 2^32 days, and the countdown's
   own date when no days come out.
   */
  ghost predicate IsTotal(now: DateTime, tag: DateTime, t: DateTime)
    requires now.date.month <= 13 && tag.date.month <= 13
  {
    var total := SumSeconds(now, tag);
    var days := U32(total / 86400);
    t.hour < 24 && t.min < 60 && t.sec < 60 && t.ms == 0 && SecondOfDay(t) == total % 86400
    && if days == 0 then t.date == tag.date else CycleValid(t.date) && CycleNumber(t.date) == days
  }

  /** `rtc_date_add`; a packed year keeps only 23 bits. */
  method DateAdd(now: nat, tag: nat) returns (r: nat, ghost whole: DateTime)
    requires now < TWO64 && tag < TWO64
    requires Unpack(now).date.month <= 13 && Unpack(tag).date.month <= 13
    ensures IsTotal(Unpack(now), Unpack(tag), whole)
    ensures r < TWO64 && Unpack(r) == Truncate(whole)
    ensures SumFits(Unpack(now), Unpack(tag)) ==> IsSum(Unpack(now), Unpack(tag), Unpack(r))
  {
    hide Unpack, Package, CycleDays, CycleNumber, CycleValid, Fits, Truncate, U32, IsTotal, SumFits, IsSum;
    var n, t := Unpack(now), Unpack(tag);
    var tagDays := YearDaysToDays(t.date);
    var nowDays := YearDaysToDays(n.date);
    var hour := n.hour + t.hour;
    var min := n.min + t.min;
    var sec := n.sec + t.sec;
    var ms := n.ms + t.ms;
    sec := sec + ms / 1000;
    min := min + sec / 60;
    sec := sec % 60;
    hour := hour + min / 60;
    min := min % 60;
    var day := U32(tagDays + nowDays + hour / 24);
    hour := hour % 24;
    var d := DaysToYearDays(day, t.date);
    r := Package(d.year, d.month, d.day, hour, min, sec, 0);
    whole := DateTime(d, hour, min, sec, 0);
    SumParts(SumSeconds(n, t), tagDays + nowDays, n.hour + t.hour, n.min + t.min, n.sec + t.sec + ms / 1000);
    assert IsTotal(n, t, whole) by { TotalOf(n, t, whole); }
    PackWhole(tag, n, t, whole);
  }

  lemma TotalOf(now: DateTime, tag: DateTime, t: DateTime)
    requires now.date.month <= 13 && tag.date.month <= 13
    requires t.hour < 24 && t.min < 60 && t.sec < 60 && t.ms == 0
    requires SecondOfDay(t) == SumSeconds(now, tag) % 86400
    requires var days := U32(SumSeconds(now, tag) / 86400);
             if days == 0 then t.date == tag.date else CycleValid(t.date) && CycleNumber(t.date) == days
    ensures IsTotal(now, tag, t)
  {
  }

  /** What a packed date keeps of its year. */
  function Truncate(t: DateTime): DateTime {
    t.(date := t.date.(year := t.date.year % 0x80_0000))
  }

  lemma PackTruncates(t: DateTime)
    requires Fits(Truncate(t))
    ensures Pack(t) == Pack(Truncate(t)) < TWO64 && Unpack(Pack(t)) == Truncate(t)
  {
    hide BitOr, Unpack, Fits;
    var y := t.date.year;
    PowersUsed();
    Quotient(y * 0x200_0000_0000, y / 0x80_0000, TWO64, y % 0x80_0000 * 0x200_0000_0000);
    SmallMod(y % 0x80_0000 * 0x200_0000_0000);
    assert Shl64(y, 41) == Shl64(y % 0x80_0000, 41) by { hide Pow2; }
    hide Pow2;
    PackIsPositional(Truncate(t));
    UnpackPack(Truncate(t));
  }

  lemma PackWhole(tag: nat, now: DateTime, length: DateTime, t: DateTime)
    requires tag < TWO64 && length == Unpack(tag)
    requires now.date.month <= 13 && length.date.month <= 13 && IsTotal(now, length, t)
    ensures Pack(t) < TWO64 && Unpack(Pack(t)) == Truncate(t)
    ensures SumFits(now, length) ==> IsSum(now, length, Truncate(t))
  {
    hide Pack, CycleNumber, SumSeconds, Unpack;
    UnpackFits(tag);
    if U32(SumSeconds(now, length) / 86400) != 0 {
      CycleFields(t.date);
    }
    PackTruncates(t);
    if SumFits(now, length) {
      CycleYearBound(t.date);
    }
  }

  lemma CycleFields(d: Date)
    requires CycleValid(d)
    ensures 1 <= d.month <= 12 && 1 <= d.day < 32
  {
    TablesDiffer(d.month);
  }

  /** Carrying seconds into minutes, hours and days keeps the total. */
  lemma SumParts(total: nat, days: nat, hours: nat, mins: nat, secs: nat)
    requires total == days * 86400 + hours * 3600 + mins * 60 + secs
    ensures var m := mins + secs / 60;
            var h := hours + m / 60;
            total / 86400 == days + h / 24
            && total % 86400 == h % 24 * 3600 + m % 60 * 60 + secs % 60
            && total == (days + h / 24) * 86400 + h % 24 * 3600 + m % 60 * 60 + secs % 60
  {
    var m := mins + secs / 60;
    var h := hours + m / 60;
    assert secs == secs / 60 * 60 + secs % 60;
    assert m == m / 60 * 60 + m % 60;
    assert h == h / 24 * 24 + h % 24;
    Quotient(total, days + h / 24, 86400, h % 24 * 3600 + m % 60 * 60 + secs % 60);
  }

  lemma CycleYearBound(d: Date)
    requires CycleValid(d) && CycleNumber(d) <= LAST_PACKED_DAY
    ensures d.year < 0x80_0000 && d.month <= 12 && d.day < 32
  {
    hide CycleBeforeYear;
    TablesDiffer(d.month);
    YearInCycle(0x20_0000, 0);
    if d.year >= 0x80_0000 {
      CycleYearsGrow(0x80_0000, d.year);
    }
  }

  /** A countdown started at `c` ends after a moment `n` of the same day exactly when it outlasts the lag of the day from there. */
  lemma CountdownIsAfter(n: DateTime, c: DateTime, tag: DateTime, r: DateTime)
    requires ValidTime(n) && ValidTime(c) && n.date == c.date && tag.date.month <= 13 && IsSum(c, tag, r) && Fits(r)
    ensures Fits(n)
    ensures Pack(n) < Pack(r) <==>
      SecondOfDay(c) + CountSeconds(tag) + MsCarry(c, tag) > 86400 * Lag(n.date) + SecondOfDay(n)
  {
    hide Pack, CycleNumber, CycleDays, LeapYear, MonthDayNum, Lag;
    DaysOfMonth(n.date.year, n.date.month);
    PackOrder(n, r);
    ValidIsCycleValid(n.date);
    CycleDaysLag(n.date);
    CycleOrder(n.date, r.date);
    CycleOrder(r.date, n.date);
  }

  /** A countdown ends strictly after now exactly when it outlasts the lag of now's own date. */
  lemma CountdownIsLater(now: DateTime, tag: DateTime, r: DateTime)
    requires ValidTime(now) && tag.date.month <= 13 && IsSum(now, tag, r) && Fits(r)
    ensures Fits(now)
    ensures Pack(now) < Pack(r) <==> CountSeconds(tag) + MsCarry(now, tag) > 86400 * Lag(now.date)
  {
    hide Pack, CountSeconds, Lag, IsSum, ValidTime, Fits;
    CountdownIsAfter(now, now, tag, r);
  }

  const NOON: DateTime := DateTime(Date(2100, 3, 5), 12, 0, 0, 0)
  const ONE_HOUR: DateTime := DateTime(Date(0, 0, 0), 1, 0, 0, 0)

  lemma NoonLags()
    ensures ValidTime(NOON) && Lag(NOON.date) == 1
    ensures CountSeconds(ONE_HOUR) == 3600 && MsCarry(NOON, ONE_HOUR) == 0
  {
    hide ValidTime, Lag, CountSeconds;
    NoonValid();
    NoonLate();
    HourLength();
  }

  lemma NoonValid()
    ensures ValidTime(NOON)
  {
    hide LeapYear, MonthDayNum;
    DaysOfMonth(2100, 3);
  }

  lemma NoonLate()
    ensures Lag(NOON.date) == 1
  {
    hide LeapYear;
    NotLeap2100();
  }

  lemma HourLength()
    ensures CountSeconds(ONE_HOUR) == 3600
  {
    hide CycleBeforeYear;
    YearInCycle(0, 0);
    assert CycleDays(ONE_HOUR.date) == 0;
  }

  lemma NotLeap2100()
    ensures 2100 % 4 == 0 && !LeapYear(2100)
  {
  }

  /** At noon on 5 March 2100 an hour's countdown does not aim into the future. */
  lemma CountdownInThePast(r: DateTime)
    requires IsSum(NOON, ONE_HOUR, r) && Fits(r)
    ensures Pack(r) <= Pack(NOON)
  {
    hide Pack, Fits, ValidTime, CountSeconds, MsCarry, Lag, IsSum;
    NoonLags();
    CountdownIsLater(NOON, ONE_HOUR, r);
  }

  // ---------------------------------------------------------------------------------------------
  // rtc_seconds_interval
  // ---------------------------------------------------------------------------------------------

  function IntervalSeconds(now: DateTime, tag: DateTime): nat
    requires now.date.month <= 13 && tag.date.month <= 13
  {
    U32(IntervalDays(now.date, tag.date) * 86400 + SecondOfDay(tag) - SecondOfDay(now))
  }

  /** `rtc_seconds_interval` */
  method SecondsInterval(now: nat, tag: nat) returns (r: nat)
    requires InRange(Unpack(now).date) && InRange(Unpack(tag).date)
    ensures r == IntervalSeconds(Unpack(now), Unpack(tag))
  {
    hide Unpack, IntervalDays, U32;
    var n, t := Unpack(now), Unpack(tag);
    var days := DaysInterval(n.date, t.date);
    var passNow := n.hour * 60 * 60 + n.min * 60 + n.sec;
    var passTag := t.hour * 60 * 60 + t.min * 60 + t.sec;
    if days == 0 {
      r := U32(passTag - passNow);
    } else {
      r := U32(24 * 60 * 60 - passNow + passTag);
      U32Absorbs(24 * 60 * 60 - passNow + passTag, (days - 1) * 24 * 60 * 60);
      r := U32(r + (days - 1) * 24 * 60 * 60);
    }
  }

  /** Fourth years before `year` that are not leap. */
  function SkippedBefore(year: nat): int { CycleBeforeYear(year) - DaysBeforeYear(year) }

  lemma SkippedStep(year: nat)
    ensures SkippedBefore(year + 1) == SkippedBefore(year) + if SkippedLeap(year) then 1 else 0
  {
    hide CycleBeforeYear, DaysBeforeYear, LeapYear;
    CycleYearStep(year);
    YearStep(year);
    if LeapYear(year) {
      LeapIsFourth(year);
    }
  }

  lemma {:induction false} SkippedGrows(a: nat, b: nat)
    requires a <= b
    ensures SkippedBefore(a) <= SkippedBefore(b)
    ensures SkippedBefore(a) == SkippedBefore(b) <==> forall y :: a <= y < b ==> !SkippedLeap(y)
  {
    hide SkippedBefore, SkippedLeap;
    if a < b {
      SkippedGrows(a, b - 1);
      SkippedStep(b - 1);
    }
  }

  /** Days that the sum gains on the Gregorian calendar. */
  function DaysGained(now: Date, r: Date): int { SkippedBefore(r.year) - SkippedBefore(now.year) + Lag(r) }

  /** No day is gained: the sum ends outside the late months of a skipped leap year and passes no such year. */
  predicate AvoidsSkipped(now: Date, r: Date) {
    Lag(r) == 0 && forall y :: now.year <= y < r.year ==> !SkippedLeap(y)
  }

  lemma GregorianOfCycle(d: Date)
    requires 1 <= d.month <= 12
    ensures DayNumber(d) == CycleNumber(d) - Lag(d) - SkippedBefore(d.year)
  {
    hide CycleNumber, Lag, DayOfYear, CycleBeforeYear, DaysBeforeYear;
    CycleDaysLag(d);
  }

  /** The Gregorian seconds from now to the sum, for every now and every countdown. */
  lemma SumInterval(now: DateTime, tag: DateTime, r: DateTime)
    requires ValidTime(now) && tag.date.month <= 13 && IsSum(now, tag, r) && r.date.year < 0x80_0000
    ensures now.date.year <= r.date.year && 0 <= DaysGained(now.date, r.date) < 64000
    ensures (DayNumber(r.date) - DayNumber(now.date)) * 86400 + SecondOfDay(r) - SecondOfDay(now)
         == CountSeconds(tag) + MsCarry(now, tag) - 86400 * DaysGained(now.date, r.date)
  {
    hide CycleNumber, CycleDays, DayNumber, LeapYear, MonthDayNum, SkippedBefore;
    ValidIsCycleValid(now.date);
    CycleDaysLag(now.date);
    GregorianOfCycle(now.date);
    GregorianOfCycle(r.date);
    SumYear(now, tag, r);
    SkippedGrows(now.date.year, r.date.year);
    SkippedBound(r.date.year);
    SkippedBound(now.date.year);
  }

  lemma SkippedBound(year: nat)
    requires year < 0x80_0000
    ensures 0 <= SkippedBefore(year) < 63700
    ensures year < TWO16 ==> SkippedBefore(year) < 900
  {
    hide CycleBeforeYear, SkippedLeap, Gregorian;
    SkippedGrows(0, year);
    YearInCycle(0, 0);
    GregorianEnds();
    var q, r := year / TWO16, year % TWO16;
    GregorianLow(r);
    CycleBound(year);
    BlockQuarter(year);
    assert q <= 127;
  }

  lemma GregorianLow(r: nat)
    requires r < TWO16
    ensures Gregorian(r) >= 365 * r + r / 4 - 657
  {
    hide Multiples;
    MultiplesOf(r, 4);
    MultiplesOf(r, 100);
    MultiplesOf(r, 400);
    assert r / 100 <= 655;
  }

  lemma BlockQuarter(year: nat)
    ensures year / 4 == 16384 * (year / TWO16) + year % TWO16 / 4
  {
    var q, r := year / TWO16, year % TWO16;
    Quotient(year, 16384 * q + r / 4, 4, r % 4);
  }

  lemma CycleBound(year: nat)
    ensures CycleBeforeYear(year) <= 365 * year + year / 4 + 1
  {
  }

  lemma SumYear(now: DateTime, tag: DateTime, r: DateTime)
    requires ValidTime(now) && tag.date.month <= 13 && IsSum(now, tag, r)
    ensures now.date.year <= r.date.year
  {
    hide CycleNumber, LeapYear, MonthDayNum, CycleDays;
    var first := Date(now.date.year, 1, 1);
    ValidIsCycleValid(now.date);
    CycleDaysLag(now.date);
    CycleValidJanuary(first);
    if Lag(now.date) == 1 {
      CycleOrder(first, now.date);
    }
    CycleOrder(now.date, r.date);
    CycleOrder(first, r.date);
    CycleOrder(r.date, first);
  }

  lemma CycleValidJanuary(d: Date)
    requires d.month == 1 && d.day == 1
    ensures CycleValid(d)
  {
  }

  /**
   The two routines together: the seconds from now to now plus a countdown are the countdown and
   the millisecond carry exactly when the span avoids the skipped leap years.
   */
  lemma IntervalOfSum(now: DateTime, tag: DateTime, r: DateTime)
    requires ValidTime(now) && tag.date.month <= 13 && IsSum(now, tag, r) && r.date.year < 0x80_0000
    ensures IntervalSeconds(now, r) == U32(CountSeconds(tag) + MsCarry(now, tag)) <==> AvoidsSkipped(now.date, r.date)
  {
    hide CycleNumber, CountSeconds, DayNumber, LeapYear, MonthDayNum, SkippedBefore, SkippedLeap, MsCarry, Lag;
    SumInterval(now, tag, r);
    SkippedGrows(now.date.year, r.date.year);
    var days := DayNumber(r.date) - DayNumber(now.date);
    var wanted := CountSeconds(tag) + MsCarry(now, tag);
    TruncatedDays(days, SecondOfDay(r) - SecondOfDay(now));
    Truncated(wanted, DaysGained(now.date, r.date));
  }

  lemma TruncatedDays(days: int, rest: int)
    ensures U32(U32(days) * 86400 + rest) == U32(days * 86400 + rest)
  {
    var q := days / TWO32;
    assert days == TWO32 * q + U32(days);
    ShiftByMultiple(U32(days) * 86400 + rest, 86400 * q);
  }

  /** Whole days vanish modulo 2^32 seconds only if there are none, as long as they are few. */
  lemma Truncated(x: int, days: nat)
    requires days < 64000
    ensures U32(x - 86400 * days) == U32(x) <==> days == 0
  {
    if U32(x - 86400 * days) == U32(x) {
      var k := x / TWO32 - (x - 86400 * days) / TWO32;
      assert 86400 * days == TWO32 * k;
      assert 675 * days == 33554432 * k;
      assert 0 <= k <= 1;
    }
  }
}
