/**
 The alarm-timer scheduler of drivers/hal_rtc.c: a list of timers sorted by `aim_date`, one
 hardware alarm that follows the head of the list, and an interrupt that fires what is due.
 */
module TimerService {
  import opened Words
  import opened Calendar
  import opened PackedDate
  import opened DateArithmetic
  import opened TimerRing
  import opened Forecast

  // ---------------------------------------------------------------------------------------------
  // The alarm register
  // ---------------------------------------------------------------------------------------------

  /** Milliseconds as 32768 Hz ticks, rounded to the nearest (`RTC_INTEGER(ms * 32.768)`). */
  function Ticks(ms: nat): (ticks: nat)
    ensures -500 < 1000 * ticks - 32768 * ms <= 500
  {
    (ms * 32768 + 500) / 1000
  }

  /** The register value that `rtc_timer_set_alarm` writes for a timer aiming at `aim`. */
  function AlarmCode(aim: nat): nat {
    var t := Unpack(aim);
    var cnt := BitOr(BitOr(BitOr(t.hour * 0x800_0000, t.min * 0x20_0000), t.sec * 0x8000), Ticks(t.ms));
    if cnt % 0x8000 == 0 then cnt + 1 else cnt
  }

  /** The four fields of the register. */
  datatype AlarmFields = AlarmFields(hour: nat, min: nat, sec: nat, ticks: nat)

  function Fields(code: nat): AlarmFields {
    AlarmFields(code / 0x800_0000, code / 0x20_0000 % 0x40, code / 0x8000 % 0x40, code % 0x8000)
  }

  /** The fields are the target's time of day: the ticks, at 32768 Hz, to half a tick, and never zero. */
  predicate Shows(f: AlarmFields, t: DateTime) {
    f.hour == t.hour && f.min == t.min && f.sec == t.sec
    && if t.ms == 0 then f.ticks == 1 else -500 < 1000 * f.ticks - 32768 * t.ms <= 500
  }

  /** What the register holds for any target: ticks beyond a second are or-ed into the seconds. */
  lemma AlarmRegister(aim: nat)
    ensures var t := Unpack(aim);
            AlarmCode(aim) < TWO32
            && Fields(AlarmCode(aim)) == AlarmFields(t.hour, t.min, BitOr(t.sec, Ticks(t.ms) / 0x8000),
                                                     if Ticks(t.ms) % 0x8000 == 0 then 1 else Ticks(t.ms) % 0x8000)
  {
    hide BitOr, Ticks;
    var t := Unpack(aim);
    TicksBound(t.ms);
    AlarmParts(t.hour, t.min, t.sec, Ticks(t.ms));
  }

  lemma TicksBound(ms: nat)
    requires ms < 0x8000
    ensures Ticks(ms) < 0x20_0000
    ensures Ticks(ms) < 0x8000 <==> ms < 1000
  {
  }

  /** The register holds the target's time of day exactly when its millisecond field is below 1000. */
  lemma AlarmDecodes(aim: nat)
    ensures Shows(Fields(AlarmCode(aim)), Unpack(aim)) <==> Unpack(aim).ms < 1000
  {
    hide BitOr, AlarmCode, Fields;
    var t := Unpack(aim);
    AlarmRegister(aim);
    TicksBound(t.ms);
    OrCommutes(t.sec, 0);
    OrZero(t.sec);
    if t.ms < 1000 {
      assert Ticks(t.ms) % 0x8000 == Ticks(t.ms) && Ticks(t.ms) / 0x8000 == 0;
    }
  }

  /** A target of 1000 milliseconds and no seconds: the register says one second. */
  lemma AlarmTooLate()
    ensures Unpack(1000) == DateTime(Date(0, 0, 0), 0, 0, 0, 1000)
    ensures Fields(AlarmCode(1000)) == AlarmFields(0, 0, 1, 1)
  {
    hide AlarmCode, Fields, BitOr, Unpack, Ticks;
    TooManyMilliseconds();
    AlarmRegister(1000);
    OrZero(1);
  }

  lemma TooManyMilliseconds()
    ensures Unpack(1000) == DateTime(Date(0, 0, 0), 0, 0, 0, 1000) && Ticks(1000) == 0x8000
  {
  }

  lemma AlarmParts(hour: nat, min: nat, sec: nat, ticks: nat)
    requires hour < 0x20 && min < 0x40 && sec < 0x40 && ticks < 0x20_0000
    ensures var cnt := BitOr(BitOr(BitOr(hour * 0x800_0000, min * 0x20_0000), sec * 0x8000), ticks);
            var code := if cnt % 0x8000 == 0 then cnt + 1 else cnt;
            code < TWO32
            && Fields(code) == AlarmFields(hour, min, BitOr(sec, ticks / 0x8000), if ticks % 0x8000 == 0 then 1 else ticks % 0x8000)
  {
    hide BitOr, Fields;
    var hm, q, low := hour * 0x40 + min, ticks / 0x8000, ticks % 0x8000;
    JoinHourMinuteSecond(hour, min, sec);
    JoinTicks(hm, sec, q, low);
    var s := BitOr(sec, q);
    Quotient((hm * 0x40 + s) * 0x8000 + low, hm * 0x40 + s, 0x8000, low);
    RegisterFields(hour, min, s, if low == 0 then 1 else low);
  }

  lemma JoinHourMinuteSecond(hour: nat, min: nat, sec: nat)
    requires min < 0x40 && sec < 0x40
    ensures BitOr(BitOr(hour * 0x800_0000, min * 0x20_0000), sec * 0x8000) == ((hour * 0x40 + min) * 0x40 + sec) * 0x8000
  {
    hide BitOr, Pow2;
    PowersUsed();
    OrDisjoint(hour, 27, min * 0x20_0000);
    OrDisjoint(hour * 0x40 + min, 21, sec * 0x8000);
  }

  /** The overflow of the ticks goes into the seconds only. */
  lemma JoinTicks(hm: nat, sec: nat, q: nat, low: nat)
    requires sec < 0x40 && q < 0x40 && low < 0x8000
    ensures BitOr(sec, q) < 0x40
    ensures BitOr((hm * 0x40 + sec) * 0x8000, q * 0x8000 + low) == (hm * 0x40 + BitOr(sec, q)) * 0x8000 + low
  {
    hide BitOr, Pow2;
    PowersUsed();
    SixBits();
    OrSplit(hm * 0x40 + sec, 0, q, low, 15);
    OrZero(low);
    OrSplit(hm, sec, 0, q, 6);
    OrCommutes(hm, 0);
    OrZero(hm);
  }

  lemma SixBits()
    ensures Pow2(6) == 0x40
  {
  }

  lemma RegisterFields(hour: nat, min: nat, sec: nat, ticks: nat)
    requires hour < 0x20 && min < 0x40 && sec < 0x40 && ticks < 0x8000
    ensures var code := ((hour * 0x40 + min) * 0x40 + sec) * 0x8000 + ticks;
            code < TWO32 && Fields(code) == AlarmFields(hour, min, sec, ticks)
  {
    var hm := hour * 0x40 + min;
    var hms := hm * 0x40 + sec;
    var code := hms * 0x8000 + ticks;
    Quotient(code, hms, 0x8000, ticks);
    Quotient(code, hm, 0x20_0000, sec * 0x8000 + ticks);
    Quotient(code, hour, 0x800_0000, min * 0x20_0000 + sec * 0x8000 + ticks);
    Quotient(hms, hm, 0x40, sec);
    Quotient(hm, hour, 0x40, min);
  }

  // ---------------------------------------------------------------------------------------------
  // Sorted insertion, on sequences
  // ---------------------------------------------------------------------------------------------

  ghost predicate Sorted(r: seq<RtcTimer>)
    reads r`aimDate
  {
    forall i, j :: 0 <= i < j < |r| ==> r[i].aimDate <= r[j].aimDate
  }

  /** The first position not before `i` whose timer is not earlier than `aim`. */
  ghost function Search(r: seq<RtcTimer>, i: nat, aim: nat): (k: nat)
    requires i <= |r|
    reads r`aimDate
    ensures i <= k <= |r|
    ensures forall j :: i <= j < k ==> r[j].aimDate < aim
    ensures k < |r| ==> r[k].aimDate >= aim
    decreases |r| - i
  {
    if i == |r| || r[i].aimDate >= aim then i else Search(r, i + 1, aim)
  }

  /** Where the driver puts a timer: before the head or after the tail if it can, else before the first that is not earlier. */
  ghost function Place(r: seq<RtcTimer>, aim: nat): (k: nat)
    reads r`aimDate
    ensures k <= |r|
  {
    if |r| == 0 || r[0].aimDate >= aim then 0
    else if r[|r| - 1].aimDate <= aim then |r|
    else Search(r, 1, aim)
  }

  lemma PlaceBounds(r: seq<RtcTimer>, aim: nat)
    requires Sorted(r)
    ensures forall i :: 0 <= i < Place(r, aim) ==> r[i].aimDate <= aim
    ensures forall i :: Place(r, aim) <= i < |r| ==> r[i].aimDate >= aim
  {
  }

  lemma SortedInsert(r: seq<RtcTimer>, t: RtcTimer)
    requires Sorted(r)
    ensures Sorted(InsertAt(r, Place(r, t.aimDate), t))
  {
    hide Place;
    var k := Place(r, t.aimDate);
    PlaceBounds(r, t.aimDate);
    var s := InsertAt(r, k, t);
    forall i, j | 0 <= i < j < |s|
      ensures s[i].aimDate <= s[j].aimDate
    {
      assert s[i] == if i < k then r[i] else if i == k then t else r[i - 1];
      assert s[j] == if j < k then r[j] else if j == k then t else r[j - 1];
    }
  }

  lemma SortedRemove(r: seq<RtcTimer>, k: nat)
    requires Sorted(r) && k < |r|
    ensures Sorted(RemoveAt(r, k))
  {
  }

  // ---------------------------------------------------------------------------------------------
  // The scheduler
  // ---------------------------------------------------------------------------------------------

  class TimerService {
    /** `TimerListHead` */
    var head: RtcTimer?
    /** The timers that exist: created and not yet freed. */
    var timers: set<RtcTimer>
    /** The system date with the running RTC counters. */
    var clock: DateTime
    /** `RTC_ALARM_REG`, and the wake-up bit of `RTC_CTRL_REG` */
    var alarm: nat
    var wakeup: bool
    /** Timers whose callback has run, in order. */
    var fired: seq<RtcTimer>
    /** The linked timers from the head on. */
    ghost var ring: seq<RtcTimer>

    ghost predicate LinksOk()
      reads `ring, `timers, timers`next, timers`prev, timers`aimDate
    {
      (forall t :: t in ring ==> t in timers)
      && Distinct(ring) && Circular(ring) && Sorted(ring)
      && (forall t :: t in timers && t !in ring ==> t.next == t && t.prev == t)
    }

    ghost predicate RingOk()
      reads `ring, `timers, `head, timers`next, timers`prev, timers`aimDate
    {
      LinksOk() && head == (if ring == [] then null else ring[0])
    }

    /** Exactly the linked timers are ready or running, and exactly the head is running. */
    ghost predicate StatusOk()
      reads `ring, `timers, `head, timers`status
    {
      forall t :: t in timers ==>
        if t in ring then t.status == if t == head then Running else Ready
        else t.status != Ready && t.status != Running
    }

    ghost predicate AlarmOk()
      reads `ring, `timers, `alarm, `wakeup, timers`aimDate
    {
      if ring == [] then !wakeup
      else ring[0] in timers && wakeup && alarm == AlarmCode(ring[0].aimDate)
    }

    // -------------------------------------------------------------------------------------------
    // List operations
    // -------------------------------------------------------------------------------------------

    /** Links `t` before the timer at position `k`; `first` says that it becomes the head. */
    method Splice(l: RtcTimer, t: RtcTimer, first: bool, ghost k: nat, ghost place: nat)
      requires RingOk() && t in timers && t !in ring
      requires k < |ring| && ring[k] == l
      requires place == Place(ring, t.aimDate) && first == (place == 0)
      requires place == k || (k == 0 && place == |ring|)
      modifies `ring, `head, timers`next, timers`prev
      ensures ring == InsertAt(old(ring), place, t)
      ensures RingOk()
    {
      hide Circular, Sorted, Place, Distinct, InsertAt;
      SortedInsert(ring, t);
      InsertAtFacts(ring, place, t);
      ghost var s := InsertAt(ring, place, t);
      assert forall x :: x in s ==> x in timers;
      assert Sorted(s);
      InsertBefore(l, t, ring, k);
      assert Sorted(s) && Circular(s);
      ring := s;
      if first {
        head := t;
      }
    }

    /** The search of `rtc_timer_list_insert` for a timer strictly between head and tail; it always finds a place. */
    method InsertInside(t: RtcTimer)
      requires RingOk() && t in timers && t !in ring
      requires |ring| > 1 && ring[0].aimDate < t.aimDate < ring[|ring| - 1].aimDate
      modifies `ring, `head, timers`next, timers`prev
      ensures ring == InsertAt(old(ring), old(Place(ring, t.aimDate)), t)
      ensures old(Place(ring, t.aimDate)) != 0
      ensures RingOk()
    {
      ghost var r := ring;
      ghost var place := Place(ring, t.aimDate);
      ghost var i := 1;
      var cur := head.next;
      assert cur == r[After(0, |r|)];
      while cur != head
        invariant RingOk() && ring == r && 1 <= i < |r| && cur == r[i]
        invariant Search(r, i, t.aimDate) == place
        decreases |r| - i
      {
        if cur.aimDate >= t.aimDate {
          Splice(cur, t, false, i, i);
          break;
        }
        assert r[i].next == r[After(i, |r|)];
        cur := cur.next;
        i := i + 1;
      }
    }

    /** `rtc_timer_list_insert` */
    method ListInsert(t: RtcTimer)
      requires RingOk() && t in timers && t !in ring
      modifies `ring, `head, timers`next, timers`prev, timers`status
      ensures ring == InsertAt(old(ring), old(Place(ring, t.aimDate)), t)
      ensures RingOk()
      ensures t.status == if old(Place(ring, t.aimDate)) == 0 then Running else Ready
      ensures forall x :: x in timers && x != t ==>
        x.status == if old(Place(ring, t.aimDate)) == 0 && x == old(head) then Ready else old(x.status)
    {
      hide Circular, Sorted, Distinct, Search;
      t.status := Ready;
      if head == null {
        t.status := Running;
        head := t;
        SingleRing(t);
        ring := [t];
      } else {
        RingSize(ring);
        if head == head.next {
          var first := head.aimDate >= t.aimDate;
          if first {
            head.status := Ready;
            t.status := Running;
          }
          Splice(head, t, first, 0, if first then 0 else 1);
        } else if head.aimDate >= t.aimDate {
          head.status := Ready;
          t.status := Running;
          Splice(head, t, true, 0, 0);
        } else if head.prev.aimDate <= t.aimDate {
          Splice(head, t, false, 0, |ring|);
        } else {
          InsertInside(t);
        }
      }
    }

    /** `rt_list_remove`, linked or not; `k` is the place of a linked timer. */
    method Excise(t: RtcTimer, ghost k: nat)
      requires LinksOk() && t in timers
      requires t in ring ==> k < |ring| && ring[k] == t
      modifies `ring, timers`next, timers`prev
      ensures LinksOk() && t !in ring
      ensures ring == if t in old(ring) then RemoveAt(old(ring), k) else old(ring)
    {
      hide Circular, Sorted, Distinct;
      if t in ring {
        RemoveAtFacts(ring, k);
        SortedRemove(ring, k);
      } else {
        SingleRing(t);
      }
      Remove(t, if t in ring then ring else [t], if t in ring then k else 0);
      if t in ring {
        ring := RemoveAt(ring, k);
      }
    }

    /** `rtc_timer_listhead_remove` */
    method ListHeadRemove()
      requires RingOk()
      modifies `ring, `head, timers`next, timers`prev
      ensures ring == if old(ring) == [] then [] else old(ring)[1..]
      ensures RingOk()
    {
      hide Circular, Sorted, Distinct;
      if head == null {
        return;
      }
      RingSize(ring);
      var tmp := head.next;
      if head.next == head {
        head := null;
        EmptyRing();
        ring := [];
      } else {
        Excise(head, 0);
        head := tmp;
      }
    }

    // -------------------------------------------------------------------------------------------
    // The alarm, the clock and forecasts
    // -------------------------------------------------------------------------------------------

    /** `rtc_timer_set_alarm`, always called with the head of the list. */
    method SetAlarm()
      requires RingOk()
      modifies `alarm, `wakeup, timers`status
      ensures AlarmOk()
      ensures forall t :: t in timers ==> t.status == if t == head then Running else old(t.status)
    {
      hide Circular, Sorted, Distinct, AlarmCode;
      if head == null {
        wakeup := false;
        return;
      }
      head.status := Running;
      alarm := AlarmCode(head.aimDate);
      wakeup := true;
    }

    /** `rtc_get_now_date`: the counters may have moved on since the last reading, within the day. */
    method GetNowDate() returns (now: nat)
      requires ValidTime(clock)
      modifies `clock
      ensures Later(old(clock), clock) && now == Pack(clock)
    {
      hide Pack;
      var next: DateTime := *;
      if Later(clock, next) {
        clock := next;
      }
      now := Pack(clock);
    }

    /**
     `rtc_timer_aimdate_forecast`. A countdown starts again from now; an alarm that is no longer in
     the future moves to its next target.
     */
    method AimDateForecast(t: RtcTimer)
      requires ValidTime(clock) && TimerOk(t)
      modifies `clock, t`aimDate, t`setDate
      ensures Later(old(clock), clock) && TimerOk(t)
      ensures Aimed(t.kind, clock, t.setDate, old(t.aimDate), t.aimDate)
      ensures t.kind == CountDown ==> t.setDate == old(t.setDate)
      ensures t.kind != CountDown ==> t.setDate == if Pack(clock) < old(t.aimDate) then old(t.setDate) else t.aimDate
      ensures Advances(t.kind, t.setDate, clock.date) ==> Pack(clock) < t.aimDate
    {
      hide Pack, Unpack, Summed, MonthSafe, NextDay, Package, CountdownOk, ValidTime, Advances;
      var at := Unpack(t.aimDate);
      if t.kind == CountDown {
        t.aimDate := Countdown(t.setDate);
      } else if t.kind == TargetDay {
        NotCountdown(t.kind, t.setDate, clock.date);
        ClockDate(clock);
        var now := GetNowDate();
        if now >= t.aimDate {
          var today := clock.date;
          var todayAim := Pack(at.(date := today));
          now := GetNowDate();
          DailyIsLater(clock, t.aimDate);
          if now >= todayAim {
            t.setDate := Pack(at.(date := NextDay(today)));
          } else {
            t.setDate := todayAim;
          }
          t.aimDate := t.setDate;
        }
      } else {
        NotCountdown(t.kind, t.setDate, clock.date);
        var now := GetNowDate();
        if now >= t.aimDate {
          var today := clock.date;
          var currentMonthAim := CurrentMonthAim(clock, at);
          now := GetNowDate();
          MonthlyIsLater(clock, t.aimDate);
          if now >= currentMonthAim {
            MonthlyDay(t.aimDate);
            t.setDate := Pack(at.(date := NextMonth(Date(today.year, today.month, at.date.day))));
          } else {
            t.setDate := currentMonthAim;
          }
          t.aimDate := t.setDate;
        }
      }
    }

    /** `rtc_date_add(rtc_get_now_date(), length)`, as a countdown is started or resumed. */
    method Countdown(length: nat) returns (aim: nat)
      requires ValidTime(clock) && length < TWO64 && CountdownOk(length)
      modifies `clock
      ensures Later(old(clock), clock) && aim < TWO64
      ensures Summed(clock, Unpack(length), aim)
      ensures Advances(CountDown, length, clock.date) ==> Pack(clock) < aim
    {
      hide Pack, Unpack, IsSum, IsTotal, CycleDays, LeapYear, MonthDayNum, SumFits, Truncate, Advances;
      var now := GetNowDate();
      PackedClock(clock);
      ghost var whole;
      aim, whole := DateAdd(now, length);
      CountdownAdvances(clock, length, aim);
    }

    // -------------------------------------------------------------------------------------------
    // The interface
    // -------------------------------------------------------------------------------------------

    /** What holds between any two calls. */
    ghost predicate Valid()
      reads `ring, `timers, `head, `alarm, `wakeup, `clock, timers
    {
      RingOk() && StatusOk() && AlarmOk() && ValidTime(clock) && forall t :: t in timers ==> TimerOk(t)
    }

    constructor ()
      ensures Valid() && timers == {} && ring == [] && fired == [] && clock == DateTime(Date(1970, 1, 1), 0, 0, 0, 0)
    {
      head, timers, fired, ring := null, {}, [], [];
      alarm, wakeup := 0, false;
      clock := DateTime(Date(1970, 1, 1), 0, 0, 0, 0);
    }

    /** `rtc_timer_create` */
    method Create(date: nat, kind: TimerType, flag: TimerFlag) returns (t: RtcTimer)
      requires Valid() && date < TWO64
      requires kind == CountDown ==> CountdownOk(date)
      requires kind == TargetMonth ==> MonthSafe(date)
      modifies `timers
      ensures Valid() && fresh(t) && timers == old(timers) + {t} && t !in ring
      ensures t.aimDate == date && t.setDate == date && t.remain == 0 && t.kind == kind && t.flag == flag && t.status == Inactive
    {
      hide Circular, Sorted, Distinct, AlarmCode, CycleDays, Unpack, ValidTime;
      t := new RtcTimer(date, kind, flag);
      NoCountdown();
      timers := timers + {t};
    }

    /** The statuses that `Arm` can start from: at most the head is running, and only linked timers and `t` look linked. */
    ghost predicate StatusBefore(t: RtcTimer)
      reads `ring, `timers, `head, timers`status
    {
      forall x :: x in timers && x != t ==>
        if x in ring then x.status == Ready || (x == head && x.status == Running)
        else x.status != Ready && x.status != Running
    }

    /** Insertion followed by setting the alarm, as start, resume and time-out end. */
    method Arm(t: RtcTimer)
      requires RingOk() && t in timers && t !in ring && StatusBefore(t)
      modifies `ring, `head, `alarm, `wakeup, timers`next, timers`prev, timers`status
      ensures RingOk() && StatusOk() && AlarmOk()
      ensures ring == InsertAt(old(ring), old(Place(ring, t.aimDate)), t)
      ensures forall x :: x in timers && x !in old(ring) && x != t ==> x.status == old(x.status)
    {
      hide Circular, Sorted, Distinct, AlarmCode, Place;
      InsertAtFacts(ring, Place(ring, t.aimDate), t);
      ListInsert(t);
      SetAlarm();
    }

    /** `rtc_timer_aimdate_init`: false for a one-shot alarm that is already due. */
    method AimDateInit(t: RtcTimer) returns (ok: bool)
      requires ValidTime(clock) && TimerOk(t)
      modifies `clock, t`aimDate, t`setDate
      ensures Later(old(clock), clock) && TimerOk(t)
      ensures ok <==> (t.kind == CountDown || t.flag == Periodic || Pack(clock) < old(t.aimDate))
      ensures !ok ==> t.aimDate == old(t.aimDate) && t.setDate == old(t.setDate)
      ensures t.kind == CountDown ==> t.setDate == old(t.setDate)
      ensures ok ==> Aimed(t.kind, clock, t.setDate, old(t.aimDate), t.aimDate)
      ensures ok && t.kind != CountDown ==> t.setDate == if Pack(clock) < old(t.aimDate) then old(t.setDate) else t.aimDate
      ensures ok && Advances(t.kind, t.setDate, clock.date) ==> Pack(clock) < t.aimDate
    {
      hide Pack, Unpack, Summed, MonthSafe, CountdownOk, ValidTime, Advances, Daily, Monthly;
      if t.kind == CountDown {
        t.aimDate := Countdown(t.setDate);
        return true;
      }
      if t.flag == OneShot {
        ClockDate(clock);
        var now := GetNowDate();
        return now < t.aimDate;
      }
      AimDateForecast(t);
      return true;
    }

    /** Moving the target of a timer that is not linked disturbs neither the list nor the alarm. */
    twostate lemma UnlinkedAim(t: RtcTimer)
      requires old(RingOk()) && old(AlarmOk()) && t in timers && t !in ring
      requires unchanged(`ring, `head, `timers, `alarm, `wakeup)
      requires forall x :: x in timers ==> x.next == old(x.next) && x.prev == old(x.prev)
      requires forall x :: x in timers && x != t ==> x.aimDate == old(x.aimDate)
      ensures RingOk() && AlarmOk()
    {
      hide AlarmCode;
    }

    /** The first half of `rtc_timer_start`: setting the target of a timer that is not linked. */
    method Prepare(t: RtcTimer) returns (ok: bool)
      requires Valid() && t in timers && t !in ring
      modifies `clock, t`aimDate, t`setDate
      ensures Valid() && Later(old(clock), clock)
      ensures ok <==> (t.status != Inactive || t.kind == CountDown || t.flag == Periodic || Pack(clock) < old(t.aimDate))
      ensures t.kind == CountDown ==> t.setDate == old(t.setDate)
      ensures !ok ==> t.aimDate == old(t.aimDate) && t.setDate == old(t.setDate)
      ensures ok ==> Aimed(t.kind, clock, t.setDate, old(t.aimDate), t.aimDate)
      ensures ok && t.kind != CountDown ==> t.setDate == if Pack(clock) < old(t.aimDate) then old(t.setDate) else t.aimDate
      ensures ok && Advances(t.kind, t.setDate, clock.date) ==> Pack(clock) < t.aimDate
    {
      hide LinksOk, AlarmOk, Pack, TimerOk, ValidTime, Advances, Aimed;
      if t.status == Inactive {
        ok := AimDateInit(t);
      } else {
        AimDateForecast(t);
        ok := true;
      }
      UnlinkedAim(t);
    }

    /** `rtc_timer_start` */
    method Start(t: RtcTimer?) returns (ok: bool)
      requires Valid() && (t == null || t in timers)
      modifies `ring, `head, `alarm, `wakeup, `clock, timers`next, timers`prev, timers`status, Just(t)`aimDate, Just(t)`setDate
      ensures Valid() && Later(old(clock), clock)
      ensures !ok <==> (t == null || t in old(ring)
                        || (old(t.status) == Inactive && t.kind != CountDown && t.flag == OneShot && Pack(clock) >= old(t.aimDate)))
      ensures ok ==> ring == InsertAt(old(ring), Place(old(ring), t.aimDate), t)
      ensures ok ==> Aimed(t.kind, clock, t.setDate, old(t.aimDate), t.aimDate)
      ensures ok && t.kind != CountDown ==> t.setDate == if Pack(clock) < old(t.aimDate) then old(t.setDate) else t.aimDate
      ensures ok && Advances(t.kind, t.setDate, clock.date) ==> Pack(clock) < t.aimDate
      ensures !ok ==> ring == old(ring) && (t != null ==> t.status == old(t.status) && t.aimDate == old(t.aimDate) && t.setDate == old(t.setDate))
      ensures forall x :: x in timers && x !in old(ring) && x != t ==> x.status == old(x.status)
      ensures t != null && t.kind == CountDown ==> t.setDate == old(t.setDate)
    {
      hide Circular, Sorted, Distinct, AlarmCode, Place, Pack, TimerOk, ValidTime, Advances, LinksOk, InsertAt, Aimed;
      ClockStays();
      if t == null {
        return false;
      }
      if t.status == Ready || t.status == Running {
        return false;
      }
      ok := Prepare(t);
      if ok {
        Arm(t);
      }
    }

    /** Unlinking a timer, as stop, suspend and delete begin. */
    method Detach(t: RtcTimer)
      requires Valid() && t in timers && head != null
      modifies `ring, `head, `alarm, `wakeup, timers`next, timers`prev, timers`status
      ensures RingOk() && AlarmOk() && StatusBefore(t) && (head != null ==> head.status == Running)
      ensures t !in ring && ring == Without(old(ring), t)
      ensures forall x :: x in timers && x !in old(ring) ==> x.status == old(x.status)
    {
      hide Circular, Sorted, Distinct, AlarmCode;
      if t == head {
        HeadWithout(ring);
        ListHeadRemove();
        SetAlarm();
      } else {
        ghost var k := if t in ring then IndexOf(ring, t) else 0;
        if t in ring {
          RemoveAtFacts(ring, k);
        }
        Excise(t, k);
      }
    }

    /** `rtc_timer_stop`; with an empty list it does nothing at all. */
    method StopTimer(t: RtcTimer?)
      requires Valid() && (t == null || t in timers)
      modifies `ring, `head, `alarm, `wakeup, timers`next, timers`prev, timers`status
      ensures Valid() && ring == (if t == null then old(ring) else Without(old(ring), t)) && t !in ring
      ensures t != null ==> t.status == if old(ring) == [] then old(t.status) else Stop
      ensures forall x :: x in timers && x !in old(ring) && x != t ==> x.status == old(x.status)
    {
      hide LinksOk, Without, AlarmOk, TimerOk, ValidTime;
      if head == null || t == null {
        if t != null {
          EmptyWithout(t);
        }
        return;
      }
      Detach(t);
      t.status := Stop;
    }

    /**
     `rtc_timer_suspend`. The status is overwritten before the test for a running countdown, so the
     time left is never saved.
     */
    method SuspendTimer(t: RtcTimer?)
      requires Valid() && (t == null || t in timers)
      modifies `ring, `head, `alarm, `wakeup, timers`next, timers`prev, timers`status
      ensures Valid() && ring == (if t == null then old(ring) else Without(old(ring), t)) && t !in ring
      ensures t != null ==> t.status == if old(ring) == [] then old(t.status) else Suspend
      ensures forall x :: x in timers && x !in old(ring) && x != t ==> x.status == old(x.status)
    {
      hide LinksOk, Without, AlarmOk, TimerOk, ValidTime;
      if head == null || t == null {
        if t != null {
          EmptyWithout(t);
        }
        return;
      }
      Detach(t);
      t.status := Suspend;
      if t.kind == CountDown && t.status == Running {
        assert false;
      }
    }

    /** The new target of a resumed timer. */
    method PrepareResume(t: RtcTimer)
      requires Valid() && t in timers && t !in ring
      modifies `clock, t`aimDate, t`setDate, t`remain
      ensures Valid() && Later(old(clock), clock)
      ensures t.remain == if t.kind == CountDown then 0 else old(t.remain)
      ensures Aimed(t.kind, clock, if t.kind == CountDown && old(t.remain) != 0 then old(t.remain) else t.setDate,
                    old(t.aimDate), t.aimDate)
      ensures t.kind == CountDown ==> t.setDate == old(t.setDate)
    {
      hide LinksOk, AlarmOk, StatusOk, Pack, Unpack, ValidTime, Summed, MonthSafe, CountdownOk, Daily, Monthly, Advances;
      NoCountdown();
      if t.kind == CountDown && t.remain != 0 {
        t.aimDate := Countdown(t.remain);
        t.remain := 0;
      } else if t.kind == CountDown {
        t.aimDate := Countdown(t.setDate);
      } else {
        AimDateForecast(t);
      }
      UnlinkedAim(t);
    }

    /** `rtc_timer_resume`; it does nothing while no timer is linked. */
    method ResumeTimer(t: RtcTimer?)
      requires Valid() && (t == null || t in timers)
      modifies `ring, `head, `alarm, `wakeup, `clock, timers`next, timers`prev, timers`status,
               Just(t)`aimDate, Just(t)`setDate, Just(t)`remain
      ensures Valid() && Later(old(clock), clock)
      ensures t != null && old(ring) != [] && old(t.status) == Suspend ==>
        ring == InsertAt(old(ring), Place(old(ring), t.aimDate), t)
        && Aimed(t.kind, clock, if t.kind == CountDown && old(t.remain) != 0 then old(t.remain) else t.setDate,
                 old(t.aimDate), t.aimDate)
      ensures !(t != null && old(ring) != [] && old(t.status) == Suspend) ==>
        ring == old(ring) && (t != null ==> t.status == old(t.status) && t.aimDate == old(t.aimDate))
      ensures forall x :: x in timers && x !in old(ring) && x != t ==> x.status == old(x.status)
      ensures t != null && old(t.remain) == 0 ==> t.remain == 0
      ensures t != null && t.kind == CountDown ==> t.setDate == old(t.setDate)
    {
      hide Circular, Sorted, Distinct, AlarmCode, Place, Pack, Unpack, TimerOk, ValidTime, LinksOk, InsertAt, Aimed;
      if head == null || t == null || t.status != Suspend {
        ClockStays();
        return;
      }
      PrepareResume(t);
      Arm(t);
    }

    lemma ClockStays()
      requires Valid()
      ensures Later(clock, clock)
    {
    }

    /** `rtc_timer_delete`; with an empty list the timer is not freed. */
    method Delete(t: RtcTimer?)
      requires Valid() && (t == null || t in timers)
      modifies `timers, `ring, `head, `alarm, `wakeup, timers`next, timers`prev, timers`status
      ensures Valid() && ring == if t == null then old(ring) else Without(old(ring), t)
      ensures timers == if old(ring) == [] || t == null then old(timers) else old(timers) - {t}
      ensures forall x :: x in timers && x !in old(ring) ==> x.status == old(x.status)
    {
      hide LinksOk, Without, AlarmOk, TimerOk, ValidTime;
      if head == null || t == null {
        if t != null {
          EmptyWithout(t);
        }
        return;
      }
      Detach(t);
      Free(t);
    }

    /** `vPortFree` of a timer that is not linked. */
    method Free(t: RtcTimer)
      requires RingOk() && AlarmOk() && t in timers && t !in ring && StatusBefore(t)
      modifies `timers
      ensures RingOk() && AlarmOk() && timers == old(timers) - {t} && StatusBefore(t)
    {
      hide Circular, Sorted, Distinct, AlarmCode;
      timers := timers - {t};
    }

    /** Aiming a removed periodic timer again and putting it back. */
    method Rearm(t: RtcTimer)
      requires RingOk() && t in timers && t !in ring && StatusBefore(t)
      requires ValidTime(clock) && TimerOk(t)
      modifies `ring, `head, `alarm, `wakeup, `clock, timers`next, timers`prev, timers`status, t`aimDate, t`setDate
      ensures RingOk() && StatusOk() && AlarmOk() && Later(old(clock), clock) && TimerOk(t)
      ensures ring == InsertAt(old(ring), Place(old(ring), t.aimDate), t)
      ensures Aimed(t.kind, clock, t.setDate, old(t.aimDate), t.aimDate)
      ensures Advances(t.kind, t.setDate, clock.date) ==> Pack(clock) < t.aimDate
      ensures t.kind == CountDown ==> t.setDate == old(t.setDate)
    {
      hide Circular, Sorted, Distinct, AlarmCode, Place, Pack, TimerOk, ValidTime, Advances, InsertAt, Aimed, Unpack, StatusBefore;
      AimDateForecast(t);
      Arm(t);
    }

    /** `rtc_timer_timeout` of the head: a one-shot timer is freed, a periodic one is aimed again and re-inserted. */
    method Timeout()
      requires Valid() && head != null
      modifies `timers, `ring, `head, `alarm, `wakeup, `clock,
               timers`next, timers`prev, timers`status, head`aimDate, head`setDate
      ensures Valid() && Later(old(clock), clock)
      ensures old(head).flag == OneShot ==>
        ring == old(ring)[1..] && timers == old(timers) - {old(head)} && old(head).aimDate == old(head.aimDate)
      ensures old(head).flag == Periodic ==>
        timers == old(timers)
        && ring == InsertAt(old(ring)[1..], Place(old(ring)[1..], old(head).aimDate), old(head))
        && Aimed(old(head).kind, clock, old(head).setDate, old(head.aimDate), old(head).aimDate)
      ensures old(head).flag == Periodic && Advances(old(head).kind, old(head).setDate, clock.date) ==>
        Pack(clock) < old(head).aimDate
      ensures old(head).kind == CountDown ==> old(head).setDate == old(head.setDate)
    {
      hide Circular, Sorted, Distinct, AlarmOk, Place, Pack, TimerOk, ValidTime, Advances, InsertAt, Aimed;
      var t := head;
      HeadWithout(ring);
      ClockStays();
      ListHeadRemove();
      if t.flag == Periodic {
        Rearm(t);
      } else {
        FreeHead(t);
      }
    }

    /** Freeing a removed one-shot timer and setting the alarm for the new head. */
    method FreeHead(t: RtcTimer)
      requires RingOk() && t in timers && t !in ring && StatusBefore(t)
      modifies `timers, `alarm, `wakeup, timers`status
      ensures RingOk() && StatusOk() && AlarmOk() && timers == old(timers) - {t}
    {
      hide Circular, Sorted, Distinct, AlarmCode;
      timers := timers - {t};
      SetAlarm();
    }

    /** Every periodic timer that is due at `now` will aim into the future when it is re-armed today. */
    ghost predicate CanRearm(now: nat)
      requires forall t :: t in ring ==> t in timers
      reads `ring, `timers, `clock, timers`setDate, timers`aimDate
    {
      forall t :: t in ring && t.flag == Periodic && t.aimDate <= now ==> Advances(t.kind, t.setDate, clock.date)
    }

    /**
     `rtc_timer_isr`. It fires exactly the timers that were due when it read the clock, each once and
     in list order, frees the one-shot ones, keeps the periodic ones, and leaves nothing due. `reading` is
     what the clock shows at the start.
     */
    method Isr(reading: DateTime) returns (ghost now: nat)
      requires Valid() && Later(clock, reading) && CanRearm(Pack(reading))
      modifies `timers, `ring, `head, `alarm, `wakeup, `clock, `fired,
               timers`next, timers`prev, timers`status, timers`aimDate, timers`setDate
      ensures Valid() && Later(old(clock), clock)
      ensures now == Pack(reading) <= Pack(clock)
      ensures ring == [] || now < ring[0].aimDate
      ensures var due := old(DueCount(ring, now));
              && fired == old(fired) + old(ring)[..due]
              && timers == old(timers) - OneShots(old(ring)[..due])
              && Members(ring) == Members(old(ring)) - OneShots(old(ring)[..due])
              && (forall t :: t in old(timers) && t !in old(ring)[..due] ==>
                    t.aimDate == old(t.aimDate) && t.setDate == old(t.setDate))
              && (forall t :: t in old(ring)[..due] && t.flag == Periodic ==>
                    Reaimed(t.kind, t.setDate, old(t.aimDate), t.aimDate, old(clock), clock))
      ensures forall t :: t in old(timers) && t.kind == CountDown ==> t.setDate == old(t.setDate)
    {
      hide Pack, Valid, Draining, OneShots, Members, Distinct, ValidTime, DueCount, Aimed, Reaimed, Advances;
      HeadIsFirst();
      ValidReading(clock, reading);
      TickTo(reading);
      assert CanRearm(Pack(reading));
      var nowdate := Pack(reading);
      now := nowdate;
      HeadIsFirst();
      NoneFired(ring);
      if head == null || nowdate < head.aimDate {
        return;
      }
      ghost var r, all, fired0, due := ring, timers, fired, DueCount(ring, now);
      ghost var aims: map<RtcTimer, nat> := map t: RtcTimer | t in all :: t.aimDate;
      ghost var sets: map<RtcTimer, nat> := map t: RtcTimer | t in all :: t.setDate;
      NotYet(r, all, aims, sets, old(clock));
      Drain(nowdate, r, all, fired0, aims, sets, old(clock));
    }

    /** The loop of the interrupt, entered with a head that is due. */
    method Drain(nowdate: nat, ghost r: seq<RtcTimer>, ghost all: set<RtcTimer>, ghost fired0: seq<RtcTimer>,
                 ghost aims: map<RtcTimer, nat>, ghost sets: map<RtcTimer, nat>, ghost start: DateTime)
      requires Valid() && CanRearm(nowdate) && r == ring && all == timers && fired0 == fired
      requires head != null && head.aimDate <= nowdate <= Pack(clock)
      requires Later(start, clock) && Moved(r, all, 0, aims, sets, start)
      modifies `timers, `ring, `head, `alarm, `wakeup, `clock, `fired,
               timers`next, timers`prev, timers`status, timers`aimDate, timers`setDate
      ensures Valid() && Later(start, clock) && nowdate <= Pack(clock)
      ensures ring == [] || nowdate < ring[0].aimDate
      ensures var due := old(DueCount(r, nowdate));
              && fired == fired0 + r[..due] && timers == all - OneShots(r[..due])
              && Members(ring) == Members(r) - OneShots(r[..due])
              && Moved(r, all, due, aims, sets, start)
    {
      hide Pack, Valid, Draining, CanRearm, OneShots, Members, Distinct, ValidTime, DueCount, Moved;
      ghost var due := DueCount(r, nowdate);
      ghost var k, rest := 1, r[due..];
      HeadIsFirst();
      DrainStart(nowdate);
      NextIsDue(r, all, fired0, 0, due, rest, nowdate);
      rest := FireNext(r, all, fired0, 0, due, rest, nowdate, aims, sets, start);
      while head != null && nowdate >= head.aimDate
        invariant k <= due && Draining(r, all, fired0, k, due, rest, nowdate) && timers <= all
        invariant Moved(r, all, k, aims, sets, start) && Later(start, clock)
        decreases due - k
      {
        NextIsDue(r, all, fired0, k, due, rest, nowdate);
        rest := FireNext(r, all, fired0, k, due, rest, nowdate, aims, sets, start);
        k := k + 1;
      }
      DrainEnd(r, all, fired0, k, due, rest, nowdate);
    }

    lemma HeadIsFirst()
      requires Valid()
      ensures head == if ring == [] then null else ring[0]
      ensures forall t :: t in ring ==> t in timers
    {
    }

    /** Only the first `k` timers of `r` have moved, and each periodic one to where it aims since `start`. */
    ghost predicate Moved(r: seq<RtcTimer>, all: set<RtcTimer>, k: nat, aims: map<RtcTimer, nat>, sets: map<RtcTimer, nat>,
                          start: DateTime)
      requires k <= |r|
      reads all`aimDate, all`setDate, `clock
    {
      (forall t :: t in r ==> t in all)
      && (forall t :: t in all ==> t in aims && t in sets)
      && (forall t :: t in all && t !in r[..k] ==> t.aimDate == aims[t] && t.setDate == sets[t])
      && (forall t :: t in all && t.kind == CountDown ==> t.setDate == sets[t])
      && (forall t :: t in r[..k] && t.flag == Periodic ==> Reaimed(t.kind, t.setDate, aims[t], t.aimDate, start, clock))
    }

    lemma NotYet(r: seq<RtcTimer>, all: set<RtcTimer>, aims: map<RtcTimer, nat>, sets: map<RtcTimer, nat>, start: DateTime)
      requires forall t :: t in r ==> t in all
      requires forall t :: t in all ==> t in aims && t in sets && t.aimDate == aims[t] && t.setDate == sets[t]
      ensures Moved(r, all, 0, aims, sets, start)
    {
    }

    /** The list is what is still due of `r`, then timers that are in the future. */
    ghost predicate Waiting(r: seq<RtcTimer>, k: nat, due: nat, rest: seq<RtcTimer>, now: nat)
      requires k <= due <= |r|
      reads `ring, `timers, timers`aimDate
    {
      ring == r[k..due] + rest
      && (forall i :: k <= i < due ==> r[i] in timers && r[i].aimDate <= now)
      && (forall x :: x in rest ==> x in timers && x.aimDate > now)
    }

    /** The first `k` timers of `r` have fired; the one-shot ones are gone and the others are linked again. */
    ghost predicate Settled(r: seq<RtcTimer>, all: set<RtcTimer>, fired0: seq<RtcTimer>, k: nat, due: nat, rest: seq<RtcTimer>)
      requires k <= due <= |r|
      reads `timers, `fired
    {
      fired == fired0 + r[..k]
      && timers == all - OneShots(r[..k])
      && Members(rest) == Members(r[due..]) + (Members(r[..k]) - OneShots(r[..k]))
    }

    ghost predicate WillAdvance(r: seq<RtcTimer>, k: nat, due: nat)
      requires k <= due <= |r|
      reads `timers, `clock, timers`setDate
    {
      forall i :: k <= i < due && r[i].flag == Periodic ==> r[i] in timers && Advances(r[i].kind, r[i].setDate, clock.date)
    }

    /** Between two firings: the first `k` of the `due` timers of `r` have fired, and the rest of the list is in the future. */
    ghost predicate Draining(r: seq<RtcTimer>, all: set<RtcTimer>, fired0: seq<RtcTimer>,
                             k: nat, due: nat, rest: seq<RtcTimer>, now: nat)
      reads this, timers
    {
      k <= due <= |r| && Valid() && WillAdvance(r, k, due) && Waiting(r, k, due, rest, now) && Settled(r, all, fired0, k, due, rest)
      && now <= Pack(clock)
    }

    lemma DrainStart(now: nat)
      requires Valid() && CanRearm(now) && now <= Pack(clock)
      ensures var due := DueCount(ring, now);
              Draining(ring, timers, fired, 0, due, ring[due..], now)
      ensures Distinct(ring)
    {
      hide Pack, ValidTime, Circular, StatusOk, AlarmOk, TimerOk, Advances, DueCount, Sorted, Distinct, Members, OneShots;
      var due := DueCount(ring, now);
      assert ring == ring[0..due] + ring[due..];
      DueIsPrefix(ring, now);
      NoneFired(ring);
    }

    /** The callback of the head runs, then its time-out is handled. */
    method FireHead()
      requires Valid() && head != null
      modifies `timers, `ring, `head, `alarm, `wakeup, `clock, `fired,
               timers`next, timers`prev, timers`status, head`aimDate, head`setDate
      ensures Valid() && Later(old(clock), clock) && fired == old(fired) + [old(head)]
      ensures old(head).flag == OneShot ==> ring == old(ring)[1..] && timers == old(timers) - {old(head)}
      ensures old(head).flag == Periodic ==>
        timers == old(timers) && (Advances(old(head).kind, old(head).setDate, clock.date) ==> Pack(clock) < old(head).aimDate)
        && ring == InsertAt(old(ring)[1..], Place(old(ring)[1..], old(head).aimDate), old(head))
        && Aimed(old(head).kind, clock, old(head).setDate, old(head.aimDate), old(head).aimDate)
      ensures old(head).kind == CountDown ==> old(head).setDate == old(head.setDate)
    {
      hide Pack, ValidTime, Valid, Advances, Place, Aimed;
      RunCallback();
      Timeout();
    }

    /** `rtc_timer_excute_callback` */
    method RunCallback()
      requires Valid() && head != null
      modifies `fired
      ensures Valid() && fired == old(fired) + [head]
    {
      hide LinksOk, StatusOk, AlarmOk, TimerOk, ValidTime;
      fired := fired + [head];
    }

    /** One turn of the loop of the interrupt. */
    method Fire(ghost r: seq<RtcTimer>, ghost all: set<RtcTimer>, ghost fired0: seq<RtcTimer>,
                ghost k: nat, ghost due: nat, ghost rest: seq<RtcTimer>, ghost now: nat) returns (ghost rest': seq<RtcTimer>)
      requires Draining(r, all, fired0, k, due, rest, now) && k < due && Distinct(r)
      modifies `timers, `ring, `head, `alarm, `wakeup, `clock, `fired,
               timers`next, timers`prev, timers`status, timers`aimDate, timers`setDate
      ensures Draining(r, all, fired0, k + 1, due, rest', now) && Later(old(clock), clock) && timers <= old(timers)
      ensures forall t :: t in old(timers) && t != r[k] ==> t.aimDate == old(t.aimDate) && t.setDate == old(t.setDate)
      ensures r[k] in old(timers) && (r[k].kind == CountDown ==> r[k].setDate == old(r[k].setDate))
      ensures r[k].flag == Periodic ==> Aimed(r[k].kind, clock, r[k].setDate, old(r[k].aimDate), r[k].aimDate)
    {
      hide Pack, ValidTime, Valid, Place, OneShots, Members, Aimed, Distinct, Advances, InsertAt;
      ghost var t := r[k];
      HeadOfDrain(r, all, fired0, k, due, rest, now);
      FiredFacts(r, k);
      OthersWait(r, k, due);
      assert t !in rest;
      FireHead();
      assert forall i :: k < i < due ==> r[i] in timers && r[i].aimDate <= now;
      assert forall x :: x in rest ==> x in timers && x.aimDate > now;
      if t.flag == OneShot {
        rest' := rest;
        assert Waiting(r, k + 1, due, rest', now);
        assert Settled(r, all, fired0, k + 1, due, rest');
      } else {
        if t.kind != CountDown {
          NotCountdown(t.kind, t.setDate, clock.date);
        }
        assert t.aimDate > now;
        rest' := BackBehind(r[k + 1..due], rest, t, now);
        assert Waiting(r, k + 1, due, rest', now);
        assert Settled(r, all, fired0, k + 1, due, rest');
      }
    }

    /** The same, with what has become of the timers since the interrupt began. */
    method FireNext(ghost r: seq<RtcTimer>, ghost all: set<RtcTimer>, ghost fired0: seq<RtcTimer>,
                    ghost k: nat, ghost due: nat, ghost rest: seq<RtcTimer>, ghost now: nat,
                    ghost aims: map<RtcTimer, nat>, ghost sets: map<RtcTimer, nat>, ghost start: DateTime)
      returns (ghost rest': seq<RtcTimer>)
      requires Draining(r, all, fired0, k, due, rest, now) && k < due && Distinct(r)
      requires Moved(r, all, k, aims, sets, start) && Later(start, clock) && timers <= all
      modifies `timers, `ring, `head, `alarm, `wakeup, `clock, `fired,
               timers`next, timers`prev, timers`status, timers`aimDate, timers`setDate
      ensures Draining(r, all, fired0, k + 1, due, rest', now) && timers <= old(timers)
      ensures Moved(r, all, k + 1, aims, sets, start) && Later(start, clock)
    {
      hide Pack, ValidTime, Draining, OneShots, Members, Aimed, Reaimed, Distinct;
      StillLinked(r, all, fired0, k, due, rest, now);
      FiredFacts(r, k);
      ghost var before := clock;
      rest' := Fire(r, all, fired0, k, due, rest, now);
      LaterTransitive(start, before, clock);
      assert r[..k + 1] == r[..k] + [r[k]];
      forall t | t in r[..k + 1] && t.flag == Periodic
        ensures Reaimed(t.kind, t.setDate, aims[t], t.aimDate, start, clock)
      {
        if t == r[k] {
          ReaimedNow(t.kind, t.setDate, aims[t], t.aimDate, start, clock);
        } else {
          ReaimedLater(t.kind, t.setDate, aims[t], t.aimDate, start, before, clock);
        }
      }
    }

    lemma StillLinked(r: seq<RtcTimer>, all: set<RtcTimer>, fired0: seq<RtcTimer>,
                      k: nat, due: nat, rest: seq<RtcTimer>, now: nat)
      requires Draining(r, all, fired0, k, due, rest, now) && Distinct(r) && k < due
      ensures k < |r| && r[k] !in r[..k]
    {
    }

    lemma HeadOfDrain(r: seq<RtcTimer>, all: set<RtcTimer>, fired0: seq<RtcTimer>,
                      k: nat, due: nat, rest: seq<RtcTimer>, now: nat)
      requires Draining(r, all, fired0, k, due, rest, now) && k < due
      ensures head != null && head == r[k] && head in timers && ring[1..] == r[k + 1..due] + rest
      ensures head.flag == Periodic ==> Advances(head.kind, head.setDate, clock.date)
    {
      hide Pack, ValidTime, StatusOk, AlarmOk, TimerOk, Advances, OneShots, Members, Circular, Sorted, Distinct;
      assert ring[0] == r[k];
    }

    /** While the head is due, not all due timers have fired. */
    lemma NextIsDue(r: seq<RtcTimer>, all: set<RtcTimer>, fired0: seq<RtcTimer>,
                    k: nat, due: nat, rest: seq<RtcTimer>, now: nat)
      requires Draining(r, all, fired0, k, due, rest, now) && head != null && head.aimDate <= now
      ensures k < due
    {
      hide Pack, ValidTime, StatusOk, AlarmOk, TimerOk, Advances, OneShots, Members, Circular, Sorted, Distinct;
      assert head == ring[0];
      assert k == due ==> ring == rest;
    }

    lemma DrainEnd(r: seq<RtcTimer>, all: set<RtcTimer>, fired0: seq<RtcTimer>,
                   k: nat, due: nat, rest: seq<RtcTimer>, now: nat)
      requires Draining(r, all, fired0, k, due, rest, now) && (head == null || head.aimDate > now) && Distinct(r)
      ensures k == due && Valid() && now <= Pack(clock)
      ensures ring == [] || now < ring[0].aimDate
      ensures fired == fired0 + r[..due] && timers == all - OneShots(r[..due])
      ensures Members(ring) == Members(r) - OneShots(r[..due])
    {
      hide Pack, ValidTime, StatusOk, AlarmOk, TimerOk, Advances, Circular, Sorted;
      if k < due {
        HeadOfDrain(r, all, fired0, k, due, rest, now);
      }
      assert k == due && ring == rest;
      assert r == r[..due] + r[due..];
      assert Members(r) == Members(r[..due]) + Members(r[due..]);
      assert Members(r[due..]) !! OneShots(r[..due]);
    }

    // -------------------------------------------------------------------------------------------
    // Whole runs
    // -------------------------------------------------------------------------------------------

    /**
     At most `turns` turns of the interrupt: what holds whenever the loop is left, or looked at between two turns. Each
     turn fires one timer, and the loop is left early only when nothing is due.
     */
    method Interrupt(reading: DateTime, turns: nat) returns (done: nat)
      requires Valid() && Later(clock, reading)
      modifies `timers, `ring, `head, `alarm, `wakeup, `clock, `fired,
               timers`next, timers`prev, timers`status, timers`aimDate, timers`setDate
      ensures Valid() && Later(old(clock), clock) && timers <= old(timers)
      ensures forall t :: t in timers && t.kind == CountDown ==> t.setDate == old(t.setDate)
      ensures old(Punctual()) ==> Punctual()
      ensures done <= turns && old(fired) <= fired && |fired| == |old(fired)| + done
      ensures done < turns ==> head == null || Pack(reading) < head.aimDate
    {
      hide Valid, Pack, ValidTime, Place, InsertAt, Aimed, Advances, Punctual;
      ValidReading(clock, reading);
      TickTo(reading);
      var nowdate := Pack(reading);
      done := 0;
      while done < turns
        invariant done <= turns && old(fired) <= fired && |fired| == |old(fired)| + done
        invariant Valid() && Later(old(clock), clock) && timers <= old(timers)
        invariant forall t :: t in timers && t.kind == CountDown ==> t.setDate == old(t.setDate)
        invariant old(Punctual()) ==> Punctual()
      {
        if head == null || nowdate < head.aimDate {
          return;
        }
        ghost var before := clock;
        HeadIsFirst();
        PunctualTurn();
        LaterTransitive(old(clock), before, clock);
        done := done + 1;
      }
    }

    /** A turn keeps millisecond fields below 1000. */
    method PunctualTurn()
      requires Valid() && head != null
      modifies `timers, `ring, `head, `alarm, `wakeup, `clock, `fired,
               timers`next, timers`prev, timers`status, head`aimDate, head`setDate
      ensures Valid() && Later(old(clock), clock) && timers <= old(timers) && fired == old(fired) + [old(head)]
      ensures old(head).kind == CountDown ==> old(head).setDate == old(head.setDate)
      ensures old(Punctual()) ==> Punctual()
    {
      hide Valid, Pack, ValidTime, Place, InsertAt, Aimed, Advances, Unpack;
      ghost var t, r := head, ring;
      HeadIsFirst();
      TimersFit();
      FireHead();
      if t.flag == Periodic {
        TimersFit();
        InsertMembers(r[1..], Place(r[1..], t.aimDate), t);
        if old(Punctual()) {
          assert t in r;
          AimedMs(t.kind, clock, t.setDate, old(t.aimDate), t.aimDate);
        }
      }
    }

    lemma TimersFit()
      requires Valid()
      ensures ValidTime(clock) && forall t :: t in timers ==> t.aimDate < TWO64
    {
    }

    /**
     The loop of an interrupt that has read `since`, for at most `turns` turns. A linked periodic countdown that was due
     keeps it going: unless the clock has moved on by more than the lag of the day leaves room for, all turns are taken
     and a timer is due after them.
     */
    method LaggingTurns(t: RtcTimer, since: DateTime, turns: nat) returns (done: nat)
      requires Valid() && t in ring && t.flag == Periodic && t.kind == CountDown
      requires ValidTime(since) && Later(since, clock) && t.aimDate <= Pack(since)
      modifies `timers, `ring, `head, `alarm, `wakeup, `clock, `fired,
               timers`next, timers`prev, timers`status, timers`aimDate, timers`setDate
      ensures Valid() && Later(since, clock) && t.setDate == old(t.setDate)
      ensures done <= turns && |fired| == |old(fired)| + done
      ensures Lagging(t.kind, t.setDate, since, clock) ==>
        done == turns && t in ring && head != null && head.aimDate <= Pack(since)
    {
      hide Valid, Pack, ValidTime, Later, Lagging;
      DueHead(t, Pack(since));
      done := 0;
      while done < turns
        invariant Valid() && t.setDate == old(t.setDate) && timers <= old(timers) && Later(since, clock) && done <= turns
        invariant |fired| == |old(fired)| + done
        invariant Lagging(t.kind, t.setDate, since, clock) ==>
          t in ring && t.aimDate <= Pack(since) && head != null && head.aimDate <= Pack(since)
      {
        if head == null || head.aimDate > Pack(since) {
          return;
        }
        LaggingTurn(t, since);
        done := done + 1;
      }
    }

    /** One turn. */
    method LaggingTurn(t: RtcTimer, since: DateTime)
      requires Valid() && head != null && t.flag == Periodic && t.kind == CountDown
      requires ValidTime(since) && Later(since, clock)
      requires Lagging(t.kind, t.setDate, since, clock) ==> t in ring && t.aimDate <= Pack(since)
      modifies `timers, `ring, `head, `alarm, `wakeup, `clock, `fired,
               timers`next, timers`prev, timers`status, timers`aimDate, timers`setDate
      ensures Valid() && t.setDate == old(t.setDate) && timers <= old(timers) && Later(since, clock)
      ensures fired == old(fired) + [old(head)]
      ensures Lagging(t.kind, t.setDate, since, clock) ==>
        t in ring && t.aimDate <= Pack(since) && head != null && head.aimDate <= Pack(since)
    {
      hide Valid, Pack, ValidTime, Place, Aimed, Advances, Lagging, Later;
      ghost var first, r, before := head, ring, clock;
      HeadIsFirst();
      ValidReading(since, before);
      FireHead();
      LaterTransitive(since, before, clock);
      if Lagging(t.kind, t.setDate, since, clock) {
        LaggingEarlier(t.setDate, since, before, clock);
        StillInRing(t, first, r);
        if t == first {
          AimFits(t);
          LaggingIsDue(t.setDate, since, clock, old(t.aimDate), t.aimDate);
        }
        DueHead(t, Pack(since));
      }
    }

    /** A linked periodic timer is still linked after the head has been handled. */
    lemma StillInRing(t: RtcTimer, first: RtcTimer, r: seq<RtcTimer>)
      requires t in r && r[0] == first && t.flag == Periodic
      requires ring == if first.flag == OneShot then r[1..] else InsertAt(r[1..], Place(r[1..], first.aimDate), first)
      ensures t in ring
    {
      hide Place;
      var rest := r[1..];
      if t != first {
        assert t in rest;
      }
      if first.flag == Periodic {
        var p := Place(rest, first.aimDate);
        assert rest == rest[..p] + rest[p..];
      }
    }

    lemma AimFits(t: RtcTimer)
      requires Valid() && t in ring
      ensures t.aimDate < TWO64 && t.setDate < TWO64 && ValidTime(clock)
    {
    }

    lemma DueHead(t: RtcTimer, now: nat)
      requires Valid() && t in ring && t.aimDate <= now
      ensures head != null && head.aimDate <= now
    {
      hide StatusOk, AlarmOk, TimerOk, ValidTime, Circular, Distinct;
    }

    // -------------------------------------------------------------------------------------------
    // Whole runs
    // -------------------------------------------------------------------------------------------

    /** Alarms and linked timers have a millisecond field below 1000. */
    ghost predicate Punctual()
      reads `ring, `timers, timers`aimDate
    {
      forall t :: t in timers && (t.kind != CountDown || t in ring) ==> Unpack(t.aimDate).ms < 1000
    }

    /** Then the alarm register holds the head's time of day. */
    lemma PunctualAlarm()
      requires Valid() && Punctual() && ring != []
      ensures ring[0] in timers && wakeup && Shows(Fields(alarm), Unpack(ring[0].aimDate))
    {
      hide StatusOk, TimerOk, ValidTime, AlarmCode, Fields, Shows, Circular, Sorted, Distinct, Unpack;
      AlarmDecodes(ring[0].aimDate);
    }

    /** The invariant, on a day without lag, with countdowns of at least a second and nothing saved by a suspension. */
    ghost predicate Healthy()
      reads this, timers
    {
      Valid() && Lag(clock.date) == 0
      && forall t :: t in timers ==> t.remain == 0 && (t.kind == CountDown ==> Positive(t.setDate))
    }

    /** Then the interrupt ends, whatever the clock reads. */
    lemma HealthyRearms(now: nat)
      requires Healthy()
      ensures (forall t :: t in ring ==> t in timers) && CanRearm(now)
    {
      hide LinksOk, StatusOk, AlarmOk, ValidTime, Lag, CountSeconds, Unpack, CycleDays;
      HeadIsFirst();
    }

    /**
     Any sequence of calls and interrupts, on any choice of timers, keeps the invariant, also between the turns of
     an interrupt. Without lagging days and countdowns, every interrupt ends.
     */
    method Run(script: seq<Command>)
      requires Valid() && forall c :: c in script ==> Admissible(c)
      modifies this, timers
      ensures Valid()
      ensures old(Healthy()) && (forall c :: c in script ==> LagFree(c)) ==> Healthy()
      ensures old(Punctual()) && (forall c :: c in script ==> WholeMs(c)) ==> Punctual()
    {
      hide Valid, Healthy, Punctual, Lag, Admissible, LagFree, WholeMs;
      for i := 0 to |script|
        invariant Valid() && fresh(timers - old(timers))
        invariant old(Healthy()) && (forall c :: c in script ==> LagFree(c)) ==> Healthy()
        invariant old(Punctual()) && (forall c :: c in script ==> WholeMs(c)) ==> Punctual()
      {
        Step(script[i]);
      }
    }

    method Step(c: Command)
      requires Valid() && Admissible(c)
      modifies this, timers
      ensures Valid() && fresh(timers - old(timers))
      ensures old(Healthy()) && LagFree(c) ==> Healthy()
      ensures old(Punctual()) && WholeMs(c) ==> Punctual()
    {
      hide Valid, Lag, Positive, ValidTime, Aimed, Summed, Pack, MonthSafe, CountdownOk, InsertAt, Place, Advances;
      match c
      case DoCreate(date, kind, flag) =>
        var t := Create(date, kind, flag);
      case DoInterrupt(turns) =>
        ClockStays();
        var reading: DateTime := *;
        if !Later(clock, reading) {
          reading := clock;
        }
        var done := Interrupt(reading, turns);
      case DoTick(now) =>
        TickTo(now);
      case OnTimer(op) =>
        var isNull: bool := *;
        if timers == {} || isNull {
          StepTimer(null, op);
        } else {
          var t :| t in timers;
          StepTimer(t, op);
        }
    }

    method StepTimer(t: RtcTimer?, op: TimerOp)
      requires Valid() && (t == null || t in timers)
      modifies this, timers
      ensures Valid() && timers <= old(timers)
      ensures old(Healthy()) ==> Healthy()
      ensures old(Punctual()) ==> Punctual()
    {
      hide Valid, Lag, Positive, ValidTime, Without, Place, InsertAt, Advances, Aimed, Pack, Unpack;
      ghost var r, now := ring, clock;
      TimersFit();
      match op
      case DoStart =>
        var ok := Start(t);
        if ok {
          TimersFit();
          AfterAim(t, r, t.setDate, old(Punctual()), old(if t == null then 0 else t.aimDate));
        }
      case DoResume =>
        ghost var suspended := t != null && t.status == Suspend && ring != [];
        ResumeTimer(t);
        if suspended {
          TimersFit();
          AfterAim(t, r, if t.kind == CountDown && old(t.remain) != 0 then old(t.remain) else t.setDate,
                   old(Punctual()), old(t.aimDate));
        }
      case _ =>
        StepAway(t, op);
    }

    /** What linking a timer leaves to show. */
    lemma AfterAim(t: RtcTimer, r: seq<RtcTimer>, length: nat, punctual: bool, before: nat)
      requires ValidTime(clock) && before < TWO64 && ring == InsertAt(r, Place(r, t.aimDate), t)
      requires Aimed(t.kind, clock, length, before, t.aimDate)
      requires punctual && t.kind != CountDown ==> Unpack(before).ms < 1000
      ensures punctual ==> Unpack(t.aimDate).ms < 1000
      ensures forall x :: x in ring ==> x in r || x == t
    {
      hide Place, InsertAt, Aimed, Unpack, ValidTime;
      InsertMembers(r, Place(r, t.aimDate), t);
      if punctual {
        AimedMs(t.kind, clock, length, before, t.aimDate);
      }
    }

    method StepAway(t: RtcTimer?, op: TimerOp)
      requires Valid() && (t == null || t in timers) && !op.DoStart? && !op.DoResume?
      modifies this, timers
      ensures Valid() && timers <= old(timers)
      ensures old(Healthy()) ==> Healthy()
      ensures old(Punctual()) ==> Punctual()
    {
      hide Valid, Lag, Positive, ValidTime, RemoveAt, Unpack;
      if t != null {
        WithoutMembers(ring, t);
      }
      if op == DoStop {
        StopTimer(t);
      } else if op == DoSuspend {
        SuspendTimer(t);
      } else {
        Delete(t);
      }
    }

    /** Time passes, over midnight or not. */
    method TickTo(now: DateTime)
      requires Valid() && ValidTime(now)
      modifies `clock
      ensures Valid() && clock == now
    {
      hide ValidTime, LinksOk, StatusOk, AlarmOk, TimerOk;
      clock := now;
    }
  }

  datatype TimerOp = DoStart | DoStop | DoSuspend | DoResume | DoDelete

  datatype Command =
    | DoCreate(date: nat, kind: TimerType, flag: TimerFlag)
    | OnTimer(op: TimerOp)
    | DoInterrupt(turns: nat)
    | DoTick(now: DateTime)

  /** A countdown of at least one second whose end can be packed. */
  predicate Positive(length: nat) {
    var t := Unpack(length);
    t.date.month <= 13 && CycleDays(t.date) <= COUNTDOWN_LIMIT && CountSeconds(t) + t.ms / 1000 > 0
  }

  predicate Admissible(c: Command) {
    match c
    case DoCreate(date, kind, flag) =>
      date < TWO64 && (kind == CountDown ==> CountdownOk(date)) && (kind == TargetMonth ==> MonthSafe(date))
    case DoTick(now) => ValidTime(now)
    case _ => true
  }

  predicate LagFree(c: Command) {
    match c
    case DoCreate(date, kind, flag) => kind == CountDown ==> Positive(date)
    case DoTick(now) => Lag(now.date) == 0
    case _ => true
  }

  /** A date with fewer than a thousand milliseconds. */
  predicate WholeMs(c: Command) {
    c.DoCreate? && c.kind != CountDown ==> Unpack(c.date).ms < 1000
  }

  lemma InsertMembers(r: seq<RtcTimer>, k: nat, t: RtcTimer)
    requires k <= |r|
    ensures forall x :: x in InsertAt(r, k, t) ==> x in r || x == t
  {
  }

  /** Aiming keeps the milliseconds of an alarm and drops those of a countdown. */
  lemma AimedMs(kind: TimerType, now: DateTime, setDate: nat, before: nat, aim: nat)
    requires ValidTime(now) && before < TWO64 && Aimed(kind, now, setDate, before, aim)
    requires kind != CountDown ==> Unpack(before).ms < 1000
    ensures Unpack(aim).ms < 1000
  {
    hide Pack, Unpack, ValidTime, Daily, Monthly, MonthSafe, SumFits, IsSum;
    match kind
    case CountDown =>
      var whole :| IsTotal(now, Unpack(setDate), whole) && Unpack(aim) == Truncate(whole);
    case TargetDay =>
      DailyIsLater(now, before);
    case TargetMonth =>
      MonthlyKeepsDayAndHour(now, before);
  }

  ghost function Just(t: RtcTimer?): set<RtcTimer> {
    if t == null then {} else {t}
  }

  /** How many timers at the front of the list are due at `now`. */
  ghost function DueCount(r: seq<RtcTimer>, now: nat): (k: nat)
    reads r`aimDate
    ensures k <= |r|
    ensures forall i :: 0 <= i < k ==> r[i].aimDate <= now
    ensures k < |r| ==> r[k].aimDate > now
  {
    if |r| == 0 || r[0].aimDate > now then 0 else 1 + DueCount(r[1..], now)
  }

  ghost function Members(r: seq<RtcTimer>): set<RtcTimer> { set t | t in r }

  ghost function OneShots(r: seq<RtcTimer>): set<RtcTimer> { set t | t in r && t.flag == OneShot }

  /** In a sorted list everything behind the due timers is in the future. */
  lemma DueIsPrefix(r: seq<RtcTimer>, now: nat)
    requires Sorted(r)
    ensures forall i :: 0 <= i < DueCount(r, now) ==> r[i].aimDate <= now
    ensures forall x :: x in r[DueCount(r, now)..] ==> x in r && x.aimDate > now
  {
  }

  lemma NoneFired(r: seq<RtcTimer>)
    ensures r[..0] == [] && Members(r[..0]) == {} && OneShots(r[..0]) == {}
  {
  }

  lemma FiredFacts(r: seq<RtcTimer>, k: nat)
    requires k < |r| && Distinct(r)
    ensures r[..k + 1] == r[..k] + [r[k]] && r[k] !in Members(r[..k])
    ensures Members(r[..k + 1]) == Members(r[..k]) + {r[k]}
    ensures OneShots(r[..k + 1]) == OneShots(r[..k]) + if r[k].flag == OneShot then {r[k]} else {}
    ensures OneShots(r[..k]) <= Members(r[..k])
  {
  }

  lemma OthersWait(r: seq<RtcTimer>, k: nat, due: nat)
    requires k < due <= |r| && Distinct(r)
    ensures forall i :: k < i < due ==> r[i] != r[k]
  {
  }

  /** Inserting behind the timers that still wait changes only the part behind them. */
  lemma InsertBehind(waiting: seq<RtcTimer>, rest: seq<RtcTimer>, p: nat, t: RtcTimer)
    requires |waiting| <= p <= |waiting| + |rest|
    ensures InsertAt(waiting + rest, p, t) == waiting + InsertAt(rest, p - |waiting|, t)
    ensures Members(InsertAt(rest, p - |waiting|, t)) == Members(rest) + {t}
    ensures forall x :: x in InsertAt(rest, p - |waiting|, t) ==> x in rest || x == t
  {
  }

  /** A timer that is no longer due goes back behind those that still are. */
  ghost method BackBehind(waiting: seq<RtcTimer>, rest: seq<RtcTimer>, t: RtcTimer, now: nat) returns (rest': seq<RtcTimer>)
    requires t.aimDate > now && forall i :: 0 <= i < |waiting| ==> waiting[i].aimDate <= now
    ensures InsertAt(waiting + rest, Place(waiting + rest, t.aimDate), t) == waiting + rest'
    ensures Members(rest') == Members(rest) + {t}
    ensures forall x :: x in rest' ==> x in rest || x == t
  {
    hide Place, InsertAt, Members;
    var p := Place(waiting + rest, t.aimDate);
    PlaceBehind(waiting + rest, |waiting|, t.aimDate);
    rest' := InsertAt(rest, p - |waiting|, t);
    InsertBehind(waiting, rest, p, t);
  }

  /** A timer later than the `d` first goes behind them. */
  lemma PlaceBehind(r: seq<RtcTimer>, d: nat, aim: nat)
    requires d <= |r| && forall i :: 0 <= i < d ==> r[i].aimDate < aim
    ensures Place(r, aim) >= d
  {
  }

  ghost function IndexOf(r: seq<RtcTimer>, t: RtcTimer): (k: nat)
    requires t in r
    ensures k < |r| && r[k] == t
  {
    var k :| 0 <= k < |r| && r[k] == t;
    k
  }

  ghost function Without(r: seq<RtcTimer>, t: RtcTimer): seq<RtcTimer> {
    if t in r then RemoveAt(r, IndexOf(r, t)) else r
  }

  lemma WithoutMembers(r: seq<RtcTimer>, t: RtcTimer)
    ensures forall x :: x in Without(r, t) ==> x in r
  {
  }

  lemma EmptyWithout(t: RtcTimer)
    ensures Without([], t) == []
  {
  }

  lemma HeadWithout(r: seq<RtcTimer>)
    requires |r| > 0 && Distinct(r)
    ensures Without(r, r[0]) == r[1..]
    ensures forall x :: x in r[1..] <==> x in r && x != r[0]
  {
  }

  lemma NoCountdown()
    ensures CountdownOk(0)
  {
    assert Unpack(0).date == Date(0, 0, 0);
    YearInCycle(0, 0);
  }

  lemma PackedClock(now: DateTime)
    requires ValidTime(now)
    ensures Pack(now) < TWO64 && Unpack(Pack(now)) == now
  {
    hide Pack, Unpack;
    ValidFits(now);
    PackIsPositional(now);
    UnpackPack(now);
  }

  lemma CountdownFits(now: DateTime, length: DateTime)
    requires ValidTime(now) && length.date.month <= 13 && CycleDays(length.date) <= COUNTDOWN_LIMIT
    requires Fits(length)
    ensures SumFits(now, length)
  {
    hide LeapYear, MonthDayNum, CycleDays;
    ValidFits(now);
    CycleDaysSmall(now.date);
    var rest := SumSeconds(now, length) - 86400 * (CycleDays(now.date) + CycleDays(length.date));
    assert 0 <= rest < 86400 * 10;
  }

  lemma CycleDaysSmall(d: Date)
    requires ValidDate(d)
    ensures 0 < CycleDays(d) < 0x190_0000
  {
    hide LeapYear, MonthDayNum, DaysBeforeYear, CycleBeforeYear;
    DaysOfMonth(d.year, d.month);
    DayNumberSmall(d);
    SkippedBound(d.year);
  }

  /** `aim` is the packed sum of now and a countdown: always the total that packing can hold, and the true sum if it fits. */
  ghost predicate Summed(now: DateTime, length: DateTime, aim: nat) {
    now.date.month <= 13 && length.date.month <= 13
    && (exists whole :: IsTotal(now, length, whole) && Unpack(aim) == Truncate(whole))
    && (SumFits(now, length) ==> IsSum(now, length, Unpack(aim)))
  }

  /** A countdown whose sum fits ends after now exactly when it outlasts the lag of today. */
  lemma SummedIsLater(now: DateTime, length: nat, aim: nat)
    requires ValidTime(now) && aim < TWO64 && Summed(now, Unpack(length), aim) && SumFits(now, Unpack(length))
    ensures Pack(now) < aim <==> CountSeconds(Unpack(length)) + MsCarry(now, Unpack(length)) > 86400 * Lag(now.date)
  {
    hide Pack, Unpack, IsSum, IsTotal, SumFits, CountSeconds, Lag, ValidTime;
    PackUnpack(aim);
    CountdownIsLater(now, Unpack(length), Unpack(aim));
  }

  lemma CountdownAdvances(now: DateTime, length: nat, aim: nat)
    requires ValidTime(now) && length < TWO64 && aim < TWO64 && Summed(now, Unpack(length), aim)
    ensures Advances(CountDown, length, now.date) ==> Pack(now) < aim
  {
    hide Pack, Unpack, Summed, CountSeconds, Lag, ValidTime, CycleDays, SumFits;
    if Advances(CountDown, length, now.date) {
      UnpackFits(length);
      CountdownFits(now, Unpack(length));
      SummedIsLater(now, length, aim);
    }
  }

  /** A countdown that indexes the month table within bounds. */
  predicate CountdownOk(x: nat) {
    Unpack(x).date.month <= 13
  }

  /** Countdowns up to this many days can be added to any date. */
  const COUNTDOWN_LIMIT: nat := LAST_PACKED_DAY - 0x200_0000

  /** What the driver needs of a timer's dates. */
  ghost predicate TimerOk(t: RtcTimer)
    reads t`aimDate, t`setDate, t`remain
  {
    t.aimDate < TWO64 && t.setDate < TWO64 && t.remain < TWO64
    && (t.kind == CountDown ==> CountdownOk(t.setDate) && CountdownOk(t.remain))
    && (t.kind == TargetMonth ==> MonthSafe(t.aimDate))
  }

  /**
   `aim` is where a timer that aimed at `before` goes when the clock shows `now`: a countdown ends its
   length after now; an alarm stays if it is still ahead and else moves to its next target.
   */
  ghost predicate Aimed(kind: TimerType, now: DateTime, setDate: nat, before: nat, aim: nat) {
    match kind
    case CountDown =>
      Summed(now, Unpack(setDate), aim)
    case TargetDay =>
      now.date.month <= 12 && aim == if Pack(now) < before then before else Daily(now, before)
    case TargetMonth =>
      MonthSafe(before) && aim == if Pack(now) < before then before else Monthly(now, before)
  }

  /** The aim was set by some reading of the clock between `start` and `end`. */
  ghost predicate Reaimed(kind: TimerType, setDate: nat, before: nat, aim: nat, start: DateTime, end: DateTime) {
    exists now :: Later(start, now) && Later(now, end) && Aimed(kind, now, setDate, before, aim)
  }

  lemma ReaimedNow(kind: TimerType, setDate: nat, before: nat, aim: nat, start: DateTime, now: DateTime)
    requires Later(start, now) && Aimed(kind, now, setDate, before, aim)
    ensures Reaimed(kind, setDate, before, aim, start, now)
  {
    hide Pack, ValidTime, Aimed;
    assert Later(now, now);
  }

  lemma ReaimedLater(kind: TimerType, setDate: nat, before: nat, aim: nat, start: DateTime, end: DateTime, end': DateTime)
    requires Reaimed(kind, setDate, before, aim, start, end) && Later(end, end')
    ensures Reaimed(kind, setDate, before, aim, start, end')
  {
    hide Pack, ValidTime, Aimed;
    var now :| Later(start, now) && Later(now, end) && Aimed(kind, now, setDate, before, aim);
    LaterTransitive(now, end, end');
  }

  lemma LaterTransitive(a: DateTime, b: DateTime, c: DateTime)
    requires Later(a, b) && Later(b, c)
    ensures Later(a, c)
  {
  }

  /** The clock has not gone back and the date has not changed. */
  predicate Later(a: DateTime, b: DateTime) {
    ValidTime(b) && a.date == b.date && Pack(a) <= Pack(b)
  }

  /** A countdown ends in the future whenever it is started on `today`. */
  predicate Advances(kind: TimerType, setDate: nat, today: Date) {
    var length := Unpack(setDate);
    kind == CountDown ==>
      length.date.month <= 13 && CycleDays(length.date) <= COUNTDOWN_LIMIT
      && CountSeconds(length) + length.ms / 1000 > 86400 * Lag(today)
  }

  /** When it is started at `now`, a countdown does not end after `since`, an earlier moment of the day. */
  predicate Lagging(kind: TimerType, setDate: nat, since: DateTime, now: DateTime) {
    var length := Unpack(setDate);
    kind == CountDown && since.date == now.date && now.date.month <= 13 && length.date.month <= 13
    && SecondOfDay(now) + CountSeconds(length) + MsCarry(now, length) <= 86400 * Lag(now.date) + SecondOfDay(since)
  }

  /** A countdown advances all day long exactly when it does not lag at the start of a second. */
  lemma AdvancesOrLags(setDate: nat, now: DateTime)
    requires setDate < TWO64 && ValidTime(now) && now.ms == 0 && Unpack(setDate).date.month <= 13
    requires CycleDays(Unpack(setDate).date) <= COUNTDOWN_LIMIT
    ensures Advances(CountDown, setDate, now.date) <==> !Lagging(CountDown, setDate, now, now)
  {
    hide Unpack, ValidTime, CycleDays, Lag, CountSeconds;
    ClockDate(now);
  }

  /** Re-aimed at `now`, it is still due for an interrupt that read `since`. */
  lemma LaggingIsDue(setDate: nat, since: DateTime, now: DateTime, before: nat, aim: nat)
    requires ValidTime(since) && ValidTime(now) && setDate < TWO64 && aim < TWO64
    requires Lagging(CountDown, setDate, since, now) && Aimed(CountDown, now, setDate, before, aim)
    ensures aim <= Pack(since)
  {
    hide Pack, Unpack, IsSum, IsTotal, Lag, ValidTime, Fits;
    LaggingIsShort(setDate, since, now);
    UnpackFits(setDate);
    CountdownFits(now, Unpack(setDate));
    PackUnpack(aim);
    CountdownIsAfter(since, now, Unpack(setDate), Unpack(aim));
  }

  lemma LaggingIsShort(setDate: nat, since: DateTime, now: DateTime)
    requires ValidTime(since) && Lagging(CountDown, setDate, since, now)
    ensures CycleDays(Unpack(setDate).date) <= COUNTDOWN_LIMIT
  {
    hide Unpack, CycleDays, ValidDate;
  }

  /** It lagged at every earlier moment too. */
  lemma LaggingEarlier(setDate: nat, since: DateTime, a: DateTime, b: DateTime)
    requires ValidTime(a) && Later(a, b) && Lagging(CountDown, setDate, since, b)
    ensures Lagging(CountDown, setDate, since, a)
  {
    hide Pack, Unpack, CountSeconds, Lag, ValidDate;
    ValidFits(a);
    ValidFits(b);
    PackOrder(b, a);
    var ms := Unpack(setDate).ms;
    assert SecondOfDay(a) * 1000 + a.ms <= SecondOfDay(b) * 1000 + b.ms;
    CarryGrows(SecondOfDay(a), a.ms + ms, SecondOfDay(b), b.ms + ms);
  }

  lemma CarryGrows(s: nat, m: nat, s': nat, m': nat)
    requires s * 1000 + m <= s' * 1000 + m'
    ensures s + m / 1000 <= s' + m' / 1000
  {
  }

  lemma ValidReading(clock: DateTime, reading: DateTime)
    requires Later(clock, reading)
    ensures ValidTime(reading)
  {
  }

  lemma ClockDate(now: DateTime)
    requires ValidTime(now)
    ensures now.date.month <= 12
  {
  }

  lemma NotCountdown(kind: TimerType, setDate: nat, today: Date)
    requires kind != CountDown
    ensures Advances(kind, setDate, today)
  {
  }

  lemma MonthlyDay(aim: nat)
    requires MonthSafe(aim)
    ensures Unpack(aim).date.day <= 28
  {
  }

  lemma EmptyRing()
    ensures Circular([]) && Sorted([]) && Distinct([])
  {
  }

  lemma SingleRing(t: RtcTimer)
    requires t.next == t && t.prev == t
    ensures Circular([t]) && Sorted([t]) && Distinct([t])
  {
  }

  lemma RingSize(r: seq<RtcTimer>)
    requires |r| > 0 && Circular(r) && Distinct(r)
    ensures r[0].next == r[0] <==> |r| == 1
    ensures |r| > 1 ==> r[0].next == r[1]
    ensures r[0].prev == r[|r| - 1]
  {
    assert r[0].next == r[After(0, |r|)];
    assert After(|r| - 1, |r|) == 0;
  }
}
