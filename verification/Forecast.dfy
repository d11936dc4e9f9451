/**
 Where `rtc_timer_aimdate_forecast` (drivers/hal_rtc.c) moves the target of a daily or a monthly
 alarm that is no longer in the future.
 */
module Forecast {
  import opened Words
  import opened Calendar
  import opened PackedDate

  /** The daily alarm: today at the alarm's time of day if that is still ahead, else tomorrow. */
  function Daily(now: DateTime, aim: nat): nat
    requires now.date.month <= 12
  {
    var at := Unpack(aim);
    var todayAim := Pack(at.(date := now.date));
    if Pack(now) >= todayAim then Pack(at.(date := NextDay(now.date))) else todayAim
  }

  /** The target that the driver packs for the current month: hour and day are passed in each other's place. */
  function CurrentMonthAim(now: DateTime, at: DateTime): nat {
    Package(now.date.year, now.date.month, at.hour, at.date.day, at.min, at.sec, at.ms)
  }

  /** `rtc_next_time_month_period`; it sets no date for days after the 28th. */
  function NextMonth(d: Date): Date
    requires d.day <= 28
  {
    if d.month == 12 then Date(d.year + 1, 1, d.day) else Date(d.year, d.month + 1, d.day)
  }

  /** The days and hours that monthly alarms may have, so that swapping them never exceeds the 28th. */
  predicate MonthSafe(aim: nat) {
    Unpack(aim).date.day <= 28 && Unpack(aim).hour <= 28
  }

  /** The monthly alarm. */
  function Monthly(now: DateTime, aim: nat): nat
    requires MonthSafe(aim)
  {
    var at := Unpack(aim);
    if Pack(now) >= CurrentMonthAim(now, at)
    then Pack(at.(date := NextMonth(Date(now.date.year, now.date.month, at.date.day))))
    else CurrentMonthAim(now, at)
  }

  lemma ValidFits(now: DateTime)
    requires ValidTime(now)
    ensures Fits(now) && now.date.day <= 31
  {
  }

  lemma NextDayFits(d: Date)
    requires ValidDate(d)
    ensures var n := NextDay(d); n.year <= TWO16 && 1 <= n.month <= 12 && 1 <= n.day <= 31 && Before(d, n)
  {
  }

  /** A re-armed daily alarm lies in the future and keeps its time of day. */
  lemma DailyIsLater(now: DateTime, aim: nat)
    requires ValidTime(now) && aim < TWO64
    ensures Pack(now) < Daily(now, aim) < TWO64
    ensures var r := Unpack(Daily(now, aim));
            (r.date == now.date || r.date == NextDay(now.date)) && r == Unpack(aim).(date := r.date)
  {
    hide Pack, Unpack, NextDay, ValidDate;
    var at := Unpack(aim);
    UnpackFits(aim);
    ValidFits(now);
    MonthFits(now);
    NextDayFits(now.date);
    var today, tomorrow := at.(date := now.date), at.(date := NextDay(now.date));
    PackOrder(now, tomorrow);
    PackIsPositional(today);
    PackIsPositional(tomorrow);
    UnpackPack(today);
    UnpackPack(tomorrow);
  }

  /** It is the first occurrence of its time of day after now. */
  lemma DailyIsNext(now: DateTime, aim: nat, d: Date)
    requires ValidTime(now) && aim < TWO64 && ValidDate(d)
    requires Pack(now) < Pack(Unpack(aim).(date := d))
    ensures Daily(now, aim) <= Pack(Unpack(aim).(date := d))
  {
    hide Pack, Unpack, NextDay, LeapYear, MonthDayNum, DayNumber;
    var at := Unpack(aim);
    var candidate := at.(date := d);
    UnpackFits(aim);
    ValidFits(now);
    DaysOfMonth(d.year, d.month);
    NextDayFits(now.date);
    NextDayIsNext(now.date);
    PackOrder(now, candidate);
    PackOrder(candidate, at.(date := now.date));
    PackOrder(candidate, at.(date := NextDay(now.date)));
    DayNumberOrder(now.date, d);
    if NextDay(now.date).year < TWO16 {
      DayNumberOrder(d, NextDay(now.date));
    } else {
      assert NextDay(now.date).year > d.year;
      LastDay(now.date);
      DayNumberOrder(d, now.date);
      LatestDate(d);
    }
  }

  /** Only the last representable day has its successor in year 65536. */
  lemma LastDay(d: Date)
    requires ValidDate(d) && NextDay(d).year >= TWO16
    ensures d == Date(0xFFFF, 12, 31)
  {
  }

  lemma LatestDate(d: Date)
    requires ValidDate(d)
    ensures !Before(Date(0xFFFF, 12, 31), d)
  {
  }

  /** A re-armed monthly alarm lies in the future too. */
  lemma MonthlyIsLater(now: DateTime, aim: nat)
    requires ValidTime(now) && aim < TWO64 && MonthSafe(aim)
    ensures Pack(now) < Monthly(now, aim) < TWO64 && MonthSafe(Monthly(now, aim))
  {
    hide Pack, Unpack, ValidDate, Package;
    var at := Unpack(aim);
    UnpackFits(aim);
    ValidFits(now);
    MonthFits(now);
    var swapped := DateTime(Date(now.date.year, now.date.month, at.hour), at.date.day, at.min, at.sec, at.ms);
    SwappedPack(now, at);
    var next := at.(date := NextMonth(Date(now.date.year, now.date.month, at.date.day)));
    PackOrder(now, next);
    PackIsPositional(swapped);
    PackIsPositional(next);
    UnpackPack(swapped);
    UnpackPack(next);
  }

  lemma MonthFits(now: DateTime)
    requires ValidTime(now)
    ensures now.date.year < TWO16 && 1 <= now.date.month <= 12
  {
  }

  lemma SwappedPack(now: DateTime, at: DateTime)
    ensures CurrentMonthAim(now, at)
         == Pack(DateTime(Date(now.date.year, now.date.month, at.hour), at.date.day, at.min, at.sec, at.ms))
  {
  }

  /** The monthly alarm keeps its day and hour exactly when they are equal or the swapped target has passed. */
  lemma MonthlyKeepsDayAndHour(now: DateTime, aim: nat)
    requires ValidTime(now) && aim < TWO64 && MonthSafe(aim)
    ensures var at, r := Unpack(aim), Unpack(Monthly(now, aim));
            r.ms == at.ms
            && ((r.date.day == at.date.day && r.hour == at.hour)
                <==> (at.date.day == at.hour || Pack(now) >= CurrentMonthAim(now, at)))
  {
    hide Pack, Unpack, ValidDate, Package;
    var at := Unpack(aim);
    UnpackFits(aim);
    MonthFits(now);
    SwappedPack(now, at);
    UnpackPack(DateTime(Date(now.date.year, now.date.month, at.hour), at.date.day, at.min, at.sec, at.ms));
    UnpackPack(at.(date := NextMonth(Date(now.date.year, now.date.month, at.date.day))));
  }

  /**
   Where a monthly alarm goes. Before the swapped target of this month has passed, there; afterwards, to its own day and
   time of day in the month directly after this one.
   */
  lemma MonthlyTarget(now: DateTime, aim: nat)
    requires ValidTime(now) && aim < TWO64 && MonthSafe(aim)
    ensures var at, r := Unpack(aim), Unpack(Monthly(now, aim));
            var swapped := DateTime(Date(now.date.year, now.date.month, at.hour), at.date.day, at.min, at.sec, at.ms);
            var here := Date(now.date.year, now.date.month, at.date.day);
            if Pack(now) < Pack(swapped) then r == swapped
            else
              r == at.(date := r.date) && r.date.day == at.date.day && 1 <= r.date.month <= 12
              && DayNumber(r.date) == DayNumber(here) + MonthDayNum(now.date.year, now.date.month)
              && (r.date.year > now.date.year || (r.date.year == now.date.year && r.date.month > now.date.month))
  {
    hide Pack, Unpack, ValidDate, Package, MonthDayNum, DaysBeforeYear;
    var at := Unpack(aim);
    UnpackFits(aim);
    MonthFits(now);
    SwappedPack(now, at);
    var swapped := DateTime(Date(now.date.year, now.date.month, at.hour), at.date.day, at.min, at.sec, at.ms);
    var here := Date(now.date.year, now.date.month, at.date.day);
    UnpackPack(swapped);
    UnpackPack(at.(date := NextMonth(here)));
    NextMonthDays(here);
  }

  /** The same day of the next month is as many days later as the month has. */
  lemma NextMonthDays(d: Date)
    requires 1 <= d.month <= 12 && d.day <= 28
    ensures 1 <= NextMonth(d).month <= 12
    ensures DayNumber(NextMonth(d)) == DayNumber(d) + MonthDayNum(d.year, d.month)
  {
    hide DaysBeforeYear, LeapYear, MonthDayNum;
    if d.month == 12 {
      YearStep(d.year);
      CumulativeMonths(d.year, 13);
      DaysOfMonth(d.year, 12);
      assert DaysBeforeMonth(d.year, 13) == DaysBeforeMonth(d.year, 12) + MonthDayNum(d.year, 12);
    }
  }

  /** No date with that day of the month in a later month is earlier. */
  lemma MonthlyIsNext(now: DateTime, aim: nat, d: Date)
    requires ValidTime(now) && aim < TWO64 && MonthSafe(aim) && ValidDate(d) && d.day == Unpack(aim).date.day
    requires Pack(now) >= CurrentMonthAim(now, Unpack(aim))
    requires d.year > now.date.year || (d.year == now.date.year && d.month > now.date.month)
    ensures Monthly(now, aim) <= Pack(Unpack(aim).(date := d))
  {
    hide Pack, Unpack, MonthDayNum, Package;
    var at := Unpack(aim);
    UnpackFits(aim);
    MonthFits(now);
    DaysOfMonth(d.year, d.month);
    var next := at.(date := NextMonth(Date(now.date.year, now.date.month, at.date.day)));
    PackOrder(at.(date := d), next);
  }

  const NEW_YEAR: DateTime := DateTime(Date(2024, 1, 1), 0, 0, 0, 0)
  const FIFTH_AT_TEN: DateTime := DateTime(Date(2023, 12, 5), 10, 0, 0, 0)

  /** On New Year 2024 an alarm for the 5th at 10:00 is moved to the 10th at 05:00. */
  lemma MonthlySwapped()
    ensures Fits(FIFTH_AT_TEN) && MonthSafe(Pack(FIFTH_AT_TEN))
    ensures Unpack(Monthly(NEW_YEAR, Pack(FIFTH_AT_TEN))) == DateTime(Date(2024, 1, 10), 5, 0, 0, 0)
  {
    hide Pack, Unpack, Package;
    var swapped := DateTime(Date(2024, 1, 10), 5, 0, 0, 0);
    UnpackPack(FIFTH_AT_TEN);
    SwappedPack(NEW_YEAR, FIFTH_AT_TEN);
    PackOrder(NEW_YEAR, swapped);
    UnpackPack(swapped);
  }
}
