/** Proleptic Gregorian civil date-times without a time zone, and the
    subtraction of a number of minutes from them, borrowing across hour, day,
    month and year boundaries. */
module CivilTime {

  predicate IsLeapYear(y: int) {
    y % 4 == 0 && (y % 100 != 0 || y % 400 == 0)
  }

  /** The length of month `m` of year `y` in the Gregorian calendar. */
  function DaysInMonth(y: int, m: int): (n: int)
    requires 1 <= m <= 12
    ensures 28 <= n <= 31
    ensures n == 28 <==> m == 2 && !IsLeapYear(y)
    ensures n == 29 <==> m == 2 && IsLeapYear(y)
    ensures n == 30 <==> m == 4 || m == 6 || m == 9 || m == 11
    ensures n == 31 <==> m == 1 || m == 3 || m == 5 || m == 7 || m == 8 || m == 10 || m == 12
  {
    if m == 2 then (if IsLeapYear(y) then 29 else 28)
    else if m == 4 || m == 6 || m == 9 || m == 11 then 30
    else 31
  }

  /** A year has 365 days, or 366 in a leap year. */
  lemma YearLength(y: int)
    ensures DaysInMonth(y, 1) + DaysInMonth(y, 2) + DaysInMonth(y, 3) + DaysInMonth(y, 4)
      + DaysInMonth(y, 5) + DaysInMonth(y, 6) + DaysInMonth(y, 7) + DaysInMonth(y, 8)
      + DaysInMonth(y, 9) + DaysInMonth(y, 10) + DaysInMonth(y, 11) + DaysInMonth(y, 12)
      == if IsLeapYear(y) then 366 else 365
  {
  }

  /** A calendar day. */
  datatype Date = Date(year: int, month: int, day: int) {
    predicate Valid() {
      1 <= month <= 12 && 1 <= day <= DaysInMonth(year, month)
    }
  }

  type CivilDate = d: Date | d.Valid() witness Date(1970, 1, 1)

  /** A date and a time of day to the minute, in the field order of the
      calendar encoder's start array `[year, month, day, hour, minute]`. */
  datatype DateTime = DateTime(year: int, month: int, day: int, hour: int, minute: int) {
    predicate Valid() {
      Date(year, month, day).Valid() && 0 <= hour < 24 && 0 <= minute < 60
    }
  }

  type CivilDateTime = dt: DateTime | dt.Valid() witness DateTime(1970, 1, 1, 0, 0)

  function DateOf(dt: CivilDateTime): CivilDate {
    Date(dt.year, dt.month, dt.day)
  }

  /** Minutes since the start of the day. */
  function MinuteOfDay(dt: CivilDateTime): (t: int)
    ensures 0 <= t < 1440
  {
    dt.hour * 60 + dt.minute
  }

  function NextDay(d: CivilDate): CivilDate {
    if d.day < DaysInMonth(d.year, d.month) then Date(d.year, d.month, d.day + 1)
    else if d.month < 12 then Date(d.year, d.month + 1, 1)
    else Date(d.year + 1, 1, 1)
  }

  function PrevDay(d: CivilDate): CivilDate {
    if d.day > 1 then Date(d.year, d.month, d.day - 1)
    else if d.month > 1 then Date(d.year, d.month - 1, DaysInMonth(d.year, d.month - 1))
    else Date(d.year - 1, 12, 31)
  }

  lemma PrevNextDay(d: CivilDate)
    ensures PrevDay(NextDay(d)) == d
    ensures NextDay(PrevDay(d)) == d
  {
  }

  /** The date `k` days after `d` (before it when `k` is negative), one day
      at a time. */
  function ShiftDays(d: CivilDate, k: int): CivilDate
    decreases if k < 0 then -k else k
  {
    if k == 0 then d
    else if k > 0 then ShiftDays(NextDay(d), k - 1)
    else ShiftDays(PrevDay(d), k + 1)
  }

  lemma ShiftDaysFromNext(d: CivilDate, k: int)
    ensures ShiftDays(NextDay(d), k) == ShiftDays(d, k + 1)
  {
    if k + 1 <= 0 {
      PrevNextDay(d);
    }
  }

  lemma ShiftDaysFromPrev(d: CivilDate, k: int)
    ensures ShiftDays(PrevDay(d), k) == ShiftDays(d, k - 1)
  {
    if k - 1 >= 0 {
      PrevNextDay(d);
    }
  }

  /** Shifting by `a` days and then by `b` days is shifting by `a + b`. */
  lemma {:induction false} ShiftDaysAdd(d: CivilDate, a: int, b: int)
    ensures ShiftDays(ShiftDays(d, a), b) == ShiftDays(d, a + b)
    decreases if a < 0 then -a else a
  {
    if a > 0 {
      ShiftDaysAdd(NextDay(d), a - 1, b);
      ShiftDaysFromNext(d, a - 1 + b);
    } else if a < 0 {
      ShiftDaysAdd(PrevDay(d), a + 1, b);
      ShiftDaysFromPrev(d, a + 1 + b);
    }
  }

  /** Division by the length of an hour or of a day is determined by
      quotient and remainder. */
  lemma DivModUnique(x: int, d: int, q: int, r: int)
    requires d == 60 || d == 1440
    requires x == q * d + r && 0 <= r < d
    ensures x / d == q && x % d == r
  {
    if d == 60 {
      assert x == q * 60 + r;
    } else {
      assert x == q * 1440 + r;
    }
  }

  /** The date-time `n` minutes before `dt` (after it when `n` is negative),
      as `DateTime.minus({ minutes: n })` computes it on a zone without
      offset changes: the minute of the day is reduced modulo a day and the
      whole days borrowed are taken from the date. */
  function MinusMinutes(dt: CivilDateTime, n: int): CivilDateTime {
    var t := MinuteOfDay(dt) - n;
    var d := ShiftDays(DateOf(dt), t / 1440);
    var rem := t % 1440;
    DateTime(d.year, d.month, d.day, rem / 60, rem % 60)
  }

  /** The minute of the day and the date of `MinusMinutes(dt, n)`, read back
      from its fields. */
  lemma MinusMinutesFields(dt: CivilDateTime, n: int)
    ensures MinuteOfDay(MinusMinutes(dt, n)) == (MinuteOfDay(dt) - n) % 1440
    ensures DateOf(MinusMinutes(dt, n)) == ShiftDays(DateOf(dt), (MinuteOfDay(dt) - n) / 1440)
  {
  }

  /** The date-time `n` minutes after `dt`. */
  function PlusMinutes(dt: CivilDateTime, n: int): CivilDateTime {
    MinusMinutes(dt, -n)
  }

  /** Subtracting nothing changes nothing. */
  lemma MinusZero(dt: CivilDateTime)
    ensures MinusMinutes(dt, 0) == dt
  {
    var r := MinusMinutes(dt, 0);
    DivModUnique(MinuteOfDay(dt), 1440, 0, MinuteOfDay(dt));
    DivModUnique(MinuteOfDay(r), 60, dt.hour, dt.minute);
  }

  /** Subtracting `a` minutes and then `b` minutes is subtracting `a + b`. */
  lemma MinusAdd(dt: CivilDateTime, a: int, b: int)
    ensures MinusMinutes(MinusMinutes(dt, a), b) == MinusMinutes(dt, a + b)
  {
    var t1 := MinuteOfDay(dt) - a;
    var q1, r1 := t1 / 1440, t1 % 1440;
    var x := MinusMinutes(dt, a);
    assert MinuteOfDay(x) == r1;
    var t2 := r1 - b;
    var q2, r2 := t2 / 1440, t2 % 1440;
    DivModUnique(MinuteOfDay(dt) - (a + b), 1440, q1 + q2, r2);
    ShiftDaysAdd(DateOf(dt), q1, q2);
    var y, z := MinusMinutes(x, b), MinusMinutes(dt, a + b);
    assert MinuteOfDay(y) == MinuteOfDay(z) && DateOf(y) == DateOf(z);
    DivModUnique(MinuteOfDay(y), 60, y.hour, y.minute);
    DivModUnique(MinuteOfDay(y), 60, z.hour, z.minute);
  }

  /** Adding back what was subtracted restores the original date-time, in
      both orders; so subtraction is one-to-one. */
  lemma PlusUndoesMinus(dt: CivilDateTime, n: int)
    ensures PlusMinutes(MinusMinutes(dt, n), n) == dt
    ensures MinusMinutes(PlusMinutes(dt, n), n) == dt
  {
    MinusAdd(dt, n, -n);
    MinusAdd(dt, -n, n);
    MinusZero(dt);
    assert n + -n == 0 && -n + n == 0;
  }

  /** The minute before `dt`: the minute borrows from the hour, the hour from
      the day, and the day from the month and year. */
  function PrevMinute(dt: CivilDateTime): CivilDateTime {
    if dt.minute > 0 then dt.(minute := dt.minute - 1)
    else if dt.hour > 0 then dt.(hour := dt.hour - 1, minute := 59)
    else
      var d := PrevDay(DateOf(dt));
      DateTime(d.year, d.month, d.day, 23, 59)
  }

  /** `n` single-minute steps back from `dt`. */
  function StepBack(dt: CivilDateTime, n: nat): CivilDateTime {
    if n == 0 then dt else PrevMinute(StepBack(dt, n - 1))
  }

  lemma MinusOneIsPrevMinute(dt: CivilDateTime)
    ensures MinusMinutes(dt, 1) == PrevMinute(dt)
  {
    var t := MinuteOfDay(dt) - 1;
    if t >= 0 {
      DivModUnique(t, 1440, 0, t);
      if dt.minute > 0 {
        DivModUnique(t, 60, dt.hour, dt.minute - 1);
      } else {
        DivModUnique(t, 60, dt.hour - 1, 59);
      }
    } else {
      DivModUnique(t, 1440, -1, 1439);
      assert ShiftDays(DateOf(dt), -1) == PrevDay(DateOf(dt));
    }
  }

  /** Subtracting `n` minutes at once is the same as stepping back one
      minute `n` times. */
  lemma {:induction false} MinusIsRepeatedPrevMinute(dt: CivilDateTime, n: nat)
    ensures MinusMinutes(dt, n) == StepBack(dt, n)
  {
    if n == 0 {
      MinusZero(dt);
    } else {
      MinusIsRepeatedPrevMinute(dt, n - 1);
      MinusOneIsPrevMinute(MinusMinutes(dt, n - 1));
      MinusAdd(dt, n - 1, 1);
    }
  }

  /** Lexicographic order on `[year, month, day, hour, minute]`. */
  predicate Before(a: DateTime, b: DateTime) {
    || a.year < b.year
    || (a.year == b.year && a.month < b.month)
    || (a.year == b.year && a.month == b.month && a.day < b.day)
    || (a.year == b.year && a.month == b.month && a.day == b.day && a.hour < b.hour)
    || (a.year == b.year && a.month == b.month && a.day == b.day && a.hour == b.hour && a.minute < b.minute)
  }

  lemma BeforeTransitive(a: DateTime, b: DateTime, c: DateTime)
    requires Before(a, b) && Before(b, c)
    ensures Before(a, c)
  {
  }

  lemma PrevMinuteIsBefore(dt: CivilDateTime)
    ensures Before(PrevMinute(dt), dt)
  {
  }

  /** A positive number of minutes earlier is strictly earlier; zero
      minutes earlier is the same date-time. */
  lemma MinusMinutesOrder(dt: CivilDateTime, n: int)
    ensures n > 0 ==> Before(MinusMinutes(dt, n), dt)
    ensures n == 0 ==> MinusMinutes(dt, n) == dt
  {
    if n > 0 {
      MinusIsRepeatedPrevMinute(dt, n);
      StepBackIsBefore(dt, n);
    } else if n == 0 {
      MinusZero(dt);
    }
  }

  lemma {:induction false} StepBackIsBefore(dt: CivilDateTime, n: nat)
    requires n > 0
    ensures Before(StepBack(dt, n), dt)
  {
    PrevMinuteIsBefore(StepBack(dt, n - 1));
    if n > 1 {
      StepBackIsBefore(dt, n - 1);
      BeforeTransitive(StepBack(dt, n), StepBack(dt, n - 1), dt);
    }
  }
}
