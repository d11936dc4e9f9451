/**
 The 64-bit packed date of drivers/hal_rtc.c. `RTC_DATE_PACKAGE` joins seven fields with shifts and
 bitwise or; the timer list compares the results as plain integers.
 */
module PackedDate {
  import opened Words
  import opened Calendar

  datatype DateTime = DateTime(date: Date, hour: nat, min: nat, sec: nat, ms: nat)

  /** Bitwise or of two unsigned numbers. */
  function BitOr(a: nat, b: nat): nat
    decreases a + b
  {
    if a == 0 && b == 0 then 0
    else (if a % 2 == 1 || b % 2 == 1 then 1 else 0) + 2 * BitOr(a / 2, b / 2)
  }

  /** `x << k` on a 64-bit operand. */
  function Shl64(x: nat, k: nat): nat { x * Pow2(k) % TWO64 }

  /** `RTC_DATE_PACKAGE` */
  function Package(year: nat, month: nat, day: nat, hour: nat, min: nat, sec: nat, cnt: nat): nat {
    BitOr(BitOr(BitOr(BitOr(BitOr(BitOr(
                                    Shl64(year, 41), Shl64(month, 37)), Shl64(day, 32)), Shl64(hour, 27)),
                      Shl64(min, 21)), Shl64(sec, 15)), cnt)
  }

  function Pack(t: DateTime): nat {
    Package(t.date.year, t.date.month, t.date.day, t.hour, t.min, t.sec, t.ms)
  }

  /** The seven `RTC_DATE_UNPACKAGE_` macros. */
  function Unpack(x: nat): DateTime {
    DateTime(Date(x / 0x200_0000_0000, x / 0x20_0000_0000 % 0x10, x / 0x1_0000_0000 % 0x20),
             x / 0x800_0000 % 0x20, x / 0x20_0000 % 0x40, x / 0x8000 % 0x40, x % 0x8000)
  }

  /** Every field fits the bits reserved for it. */
  predicate Fits(t: DateTime) {
    t.date.year < 0x80_0000 && t.date.month < 0x10 && t.date.day < 0x20
    && t.hour < 0x20 && t.min < 0x40 && t.sec < 0x40 && t.ms < 0x8000
  }

  /** A time of day on a valid date. */
  predicate ValidTime(t: DateTime) {
    ValidDate(t.date) && t.hour < 24 && t.min < 60 && t.sec < 60 && t.ms < 1000
  }

  function SecondOfDay(t: DateTime): nat { t.hour * 3600 + t.min * 60 + t.sec }

  /** Milliseconds since the start of the calendar. */
  function Instant(t: DateTime): nat
    requires t.date.month <= 13
  {
    (DayNumber(t.date) * 86400 + SecondOfDay(t)) * 1000 + t.ms
  }

  predicate Earlier(a: DateTime, b: DateTime) {
    Before(a.date, b.date)
    || (a.date == b.date
        && (a.hour < b.hour
            || (a.hour == b.hour
                && (a.min < b.min
                    || (a.min == b.min
                        && (a.sec < b.sec || (a.sec == b.sec && a.ms < b.ms)))))))
  }

  // ---------------------------------------------------------------------------------------------
  // Bitwise or of fields that do not overlap is addition
  // ---------------------------------------------------------------------------------------------

  lemma {:induction false} OrZero(b: nat)
    ensures BitOr(0, b) == b
  {
    if b > 0 {
      OrZero(b / 2);
    }
  }

  lemma OrUnfold(a: nat, b: nat)
    ensures BitOr(a, b) == (if a % 2 == 1 || b % 2 == 1 then 1 else 0) + 2 * BitOr(a / 2, b / 2)
  {
  }

  lemma Halves(a: nat, p: nat, x: nat)
    ensures a * (2 * p) == 2 * (a * p)
    ensures (a * (2 * p) + x) / 2 == a * p + x / 2 && (a * (2 * p) + x) % 2 == x % 2
  {
    var h := a * p;
    assert a * (2 * p) == 2 * h;
    assert (2 * h + x) / 2 == h + x / 2;
  }

  lemma OrStep(a: nat, x: nat, b: nat, y: nat, p: nat)
    requires BitOr(a * p + x / 2, b * p + y / 2) == BitOr(a, b) * p + BitOr(x / 2, y / 2)
    ensures BitOr(a * (2 * p) + x, b * (2 * p) + y) == BitOr(a, b) * (2 * p) + BitOr(x, y)
  {
    hide BitOr;
    var u, v, c := a * (2 * p) + x, b * (2 * p) + y, BitOr(a, b);
    Halves(a, p, x);
    Halves(b, p, y);
    Halves(c, p, 0);
    OrUnfold(x, y);
    OrUnfold(u, v);
  }

  /** The high and the low bits of an or are the ors of the high and of the low bits. */
  lemma {:induction false} OrSplit(a: nat, x: nat, b: nat, y: nat, k: nat)
    requires x < Pow2(k) && y < Pow2(k)
    ensures BitOr(x, y) < Pow2(k)
    ensures BitOr(a * Pow2(k) + x, b * Pow2(k) + y) == BitOr(a, b) * Pow2(k) + BitOr(x, y)
    decreases k
  {
    hide BitOr;
    if k == 0 {
      OrZero(0);
      assert a * 1 + 0 == a && b * 1 + 0 == b;
    } else {
      var p := Pow2(k - 1);
      OrSplit(a, x / 2, b, y / 2, k - 1);
      OrUnfold(x, y);
      OrStep(a, x, b, y, p);
    }
  }

  lemma OrDisjoint(hi: nat, k: nat, lo: nat)
    requires lo < Pow2(k)
    ensures BitOr(hi * Pow2(k), lo) == hi * Pow2(k) + lo
  {
    hide BitOr, Pow2;
    OrSplit(hi, 0, 0, lo, k);
    OrCommutes(hi, 0);
    OrZero(hi);
    OrZero(lo);
    assert 0 * Pow2(k) + lo == lo;
  }

  lemma {:induction false} OrCommutes(a: nat, b: nat)
    ensures BitOr(a, b) == BitOr(b, a)
    decreases a + b
  {
    if a + b > 0 {
      OrCommutes(a / 2, b / 2);
    }
  }

  lemma PowersUsed()
    ensures Pow2(15) == 0x8000 && Pow2(21) == 0x20_0000 && Pow2(27) == 0x800_0000
    ensures Pow2(32) == 0x1_0000_0000 && Pow2(37) == 0x20_0000_0000 && Pow2(41) == 0x200_0000_0000
  {
    assert Pow2(4) == 16 && Pow2(5) == 32 && Pow2(6) == 64;
    PowAdd(5, 5);
    PowAdd(10, 5);
    PowAdd(15, 6);
    PowAdd(21, 6);
    PowAdd(27, 5);
    PowAdd(32, 5);
    PowAdd(37, 4);
  }

  lemma SmallMod(x: nat)
    requires x < TWO64
    ensures x % TWO64 == x
  {
  }

  /** Joining the field `x << k` below a number that is a multiple of `m`, for `f` the weight of the field. */
  lemma JoinField(hi: nat, p: nat, m: nat, x: nat, k: nat, f: nat)
    requires m == Pow2(p) && f == Pow2(k)
    requires x * f < m <= TWO64
    ensures BitOr(hi * m, Shl64(x, k)) == hi * m + x * f
  {
    hide Pow2, BitOr;
    var field := x * f;
    SmallMod(field);
    OrDisjoint(hi, p, field);
  }

  lemma TopField(year: nat)
    requires year < 0x80_0000
    ensures Shl64(year, 41) == year * 0x200_0000_0000
  {
    PowersUsed();
  }

  /** A positional number: the year, then digits of radix 16, 32, 32, 64, 64 and 32768. */
  function Positional(t: DateTime): nat {
    (((((t.date.year * 0x10 + t.date.month) * 0x20 + t.date.day) * 0x20 + t.hour) * 0x40 + t.min) * 0x40 + t.sec)
    * 0x8000 + t.ms
  }

  /** In-range fields do not overlap, so packing is positional notation. */
  lemma PackIsPositional(t: DateTime)
    requires Fits(t)
    ensures Pack(t) == Positional(t) < TWO64
  {
    hide Pow2, BitOr, Shl64;
    PowersUsed();
    var y := t.date.year;
    var ym := y * 0x10 + t.date.month;
    var ymd := ym * 0x20 + t.date.day;
    var ymdh := ymd * 0x20 + t.hour;
    var ymdhm := ymdh * 0x40 + t.min;
    TopField(y);
    JoinField(y, 41, 0x200_0000_0000, t.date.month, 37, 0x20_0000_0000);
    JoinField(ym, 37, 0x20_0000_0000, t.date.day, 32, 0x1_0000_0000);
    JoinField(ymd, 32, 0x1_0000_0000, t.hour, 27, 0x800_0000);
    JoinField(ymdh, 27, 0x800_0000, t.min, 21, 0x20_0000);
    JoinField(ymdhm, 21, 0x20_0000, t.sec, 15, 0x8000);
    OrDisjoint(ymdhm * 0x40 + t.sec, 15, t.ms);
  }

  /** Unpacking recovers every field of a packed date. */
  lemma UnpackPack(t: DateTime)
    requires Fits(t)
    ensures Unpack(Pack(t)) == t
  {
    hide Pack, Pow2, BitOr;
    PackIsPositional(t);
    var x := Positional(t);
    var ym := t.date.year * 0x10 + t.date.month;
    var ymd := ym * 0x20 + t.date.day;
    var ymdh := ymd * 0x20 + t.hour;
    var ymdhm := ymdh * 0x40 + t.min;
    var ymdhms := ymdhm * 0x40 + t.sec;
    Quotient(x, ymdhms, 0x8000, t.ms);
    Quotient(x, ymdhm, 0x20_0000, t.sec * 0x8000 + t.ms);
    Quotient(x, ymdh, 0x800_0000, t.min * 0x20_0000 + t.sec * 0x8000 + t.ms);
    Quotient(x, ymd, 0x1_0000_0000, x - ymd * 0x1_0000_0000);
    Quotient(x, ym, 0x20_0000_0000, x - ym * 0x20_0000_0000);
    Quotient(x, t.date.year, 0x200_0000_0000, x - t.date.year * 0x200_0000_0000);
    Quotient(ym, t.date.year, 0x10, t.date.month);
    Quotient(ymd, ym, 0x20, t.date.day);
    Quotient(ymdh, ymd, 0x20, t.hour);
    Quotient(ymdhm, ymdh, 0x40, t.min);
    Quotient(ymdhms, ymdhm, 0x40, t.sec);
  }

  lemma UnpackFits(x: nat)
    requires x < TWO64
    ensures Fits(Unpack(x))
  {
  }

  /** Every 64-bit number is the packing of its own fields. */
  lemma PackUnpack(x: nat)
    requires x < TWO64
    ensures Fits(Unpack(x)) && Pack(Unpack(x)) == x
  {
    hide Pack, Pow2, BitOr;
    PackIsPositional(Unpack(x));
    assert x / 0x20_0000_0000 / 0x10 == x / 0x200_0000_0000;
    assert x / 0x1_0000_0000 / 0x20 == x / 0x20_0000_0000;
    assert x / 0x800_0000 / 0x20 == x / 0x1_0000_0000;
    assert x / 0x20_0000 / 0x40 == x / 0x800_0000;
    assert x / 0x8000 / 0x40 == x / 0x20_0000;
  }

  /** Integer order of packed dates is field-by-field order. */
  lemma PackOrder(a: DateTime, b: DateTime)
    requires Fits(a) && Fits(b)
    ensures Pack(a) < Pack(b) <==> Earlier(a, b)
    ensures Pack(a) == Pack(b) <==> a == b
  {
    hide Pack, Pow2, BitOr, Unpack;
    UnpackPack(a);
    UnpackPack(b);
    PackIsPositional(a);
    PackIsPositional(b);
  }

  /** Integer order of packed dates is chronological order. */
  lemma PackChronological(a: DateTime, b: DateTime)
    requires ValidTime(a) && ValidTime(b)
    ensures Fits(a) && Fits(b)
    ensures Pack(a) < Pack(b) <==> Instant(a) < Instant(b)
    ensures Pack(a) == Pack(b) <==> Instant(a) == Instant(b)
  {
    hide Pack, DayNumber, LeapYear, MonthDayNum;
    DaysOfMonth(a.date.year, a.date.month);
    DaysOfMonth(b.date.year, b.date.month);
    PackOrder(a, b);
    DayNumberOrder(a.date, b.date);
    DayNumberOrder(b.date, a.date);
  }
}
