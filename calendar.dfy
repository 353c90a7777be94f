/**
 * The proleptic Gregorian calendar in UTC at minute resolution: what Go's
 * `time.Time` accessors (`Month`, `Day`, `Weekday`, `Hour`, `Minute`) and the
 * normalising constructor `time.Date` give for an instant counted in minutes
 * since the Unix epoch (1970-01-01T00:00Z, a Thursday).
 */
module Calendar {
  import opened Arith

  const MinutesPerDay: int := 1440

  predicate IsLeap(y: int) {
    y % 4 == 0 && (y % 100 != 0 || y % 400 == 0)
  }

  function YearLength(y: int): int {
    if IsLeap(y) then 366 else 365
  }

  function DaysInMonth(y: int, m: int): int
    requires 1 <= m <= 12
  {
    if m == 2 then (if IsLeap(y) then 29 else 28)
    else if m == 4 || m == 6 || m == 9 || m == 11 then 30
    else 31
  }

  /** Days of year `y` before the first of month `m`; `m == 13` gives the whole year. */
  function DaysBeforeMonth(y: int, m: int): int
    requires 1 <= m <= 13
  {
    var common :=
      if m == 1 then 0 else if m == 2 then 31 else if m == 3 then 59 else if m == 4 then 90
      else if m == 5 then 120 else if m == 6 then 151 else if m == 7 then 181
      else if m == 8 then 212 else if m == 9 then 243 else if m == 10 then 273
      else if m == 11 then 304 else if m == 12 then 334 else 365;
    common + (if m > 2 && IsLeap(y) then 1 else 0)
  }

  lemma MonthStep(y: int, m: int)
    requires 1 <= m <= 12
    ensures DaysBeforeMonth(y, m + 1) == DaysBeforeMonth(y, m) + DaysInMonth(y, m)
    ensures DaysBeforeMonth(y, 13) == YearLength(y)
  {
  }

  /** Days from 1970-01-01 to January 1st of year `y` (negative before 1970). */
  function DaysBeforeYear(y: int): int
    decreases if y < 1970 then 1970 - y else y - 1970
  {
    if y == 1970 then 0
    else if y > 1970 then DaysBeforeYear(y - 1) + YearLength(y - 1)
    else DaysBeforeYear(y + 1) - YearLength(y)
  }

  /** Consecutive years are `YearLength` apart. */
  lemma YearStep(y: int)
    ensures DaysBeforeYear(y + 1) == DaysBeforeYear(y) + YearLength(y)
  {
  }

  lemma {:induction false} DaysBeforeYearMonotone(a: int, b: int)
    requires a <= b
    ensures DaysBeforeYear(a) <= DaysBeforeYear(b)
    decreases b - a
  {
    if a < b {
      YearStep(a);
      DaysBeforeYearMonotone(a + 1, b);
    }
  }

  /** The year containing day number `d`, searching upwards from year `y`. */
  function YearUp(d: int, y: int): int
    requires DaysBeforeYear(y) <= d
    decreases d - DaysBeforeYear(y)
  {
    YearStep(y);
    if d < DaysBeforeYear(y + 1) then y else YearUp(d, y + 1)
  }

  /** The year containing day number `d`, searching downwards from year `y`. */
  function YearDown(d: int, y: int): int
    requires d < DaysBeforeYear(y + 1)
    decreases DaysBeforeYear(y + 1) - d
  {
    YearStep(y);
    if DaysBeforeYear(y) <= d then y else YearDown(d, y - 1)
  }

  /** The year containing day number `d`. */
  function YearOf(d: int): int {
    if d >= 0 then YearUp(d, 1970) else YearDown(d, 1969)
  }

  lemma {:induction false} YearUpFinds(d: int, y: int)
    requires DaysBeforeYear(y) <= d
    ensures DaysBeforeYear(YearUp(d, y)) <= d < DaysBeforeYear(YearUp(d, y) + 1)
    decreases d - DaysBeforeYear(y)
  {
    YearStep(y);
    if d >= DaysBeforeYear(y + 1) {
      YearUpFinds(d, y + 1);
    }
  }

  lemma {:induction false} YearDownFinds(d: int, y: int)
    requires d < DaysBeforeYear(y + 1)
    ensures DaysBeforeYear(YearDown(d, y)) <= d < DaysBeforeYear(YearDown(d, y) + 1)
    decreases DaysBeforeYear(y + 1) - d
  {
    YearStep(y);
    if DaysBeforeYear(y) > d {
      YearDownFinds(d, y - 1);
    }
  }

  /** Day `d` lies in year `YearOf(d)`. */
  lemma YearOfBounds(d: int)
    ensures DaysBeforeYear(YearOf(d)) <= d < DaysBeforeYear(YearOf(d) + 1)
  {
    if d >= 0 {
      YearUpFinds(d, 1970);
    } else {
      YearDownFinds(d, 1969);
    }
  }

  lemma YearOfUnique(d: int, y: int)
    requires DaysBeforeYear(y) <= d < DaysBeforeYear(y + 1)
    ensures YearOf(d) == y
  {
    var r := YearOf(d);
    YearOfBounds(d);
    if r < y {
      DaysBeforeYearMonotone(r + 1, y);
    } else if r > y {
      DaysBeforeYearMonotone(y + 1, r);
    }
  }

  /** The month of year `y` containing day-of-year `doy` (0-based), searching from month `m`;
      December when `doy` lies beyond it. */
  function MonthFrom(y: int, doy: int, m: int): int
    requires 1 <= m <= 12
    decreases 12 - m
  {
    if m == 12 || doy < DaysBeforeMonth(y, m + 1) then m else MonthFrom(y, doy, m + 1)
  }

  lemma {:induction false} MonthFromBounds(y: int, doy: int, m: int)
    requires 1 <= m <= 12 && DaysBeforeMonth(y, m) <= doy < YearLength(y)
    ensures m <= MonthFrom(y, doy, m) <= 12
    ensures DaysBeforeMonth(y, MonthFrom(y, doy, m)) <= doy < DaysBeforeMonth(y, MonthFrom(y, doy, m) + 1)
    decreases 12 - m
  {
    MonthStep(y, m);
    if m < 12 && doy >= DaysBeforeMonth(y, m + 1) {
      MonthFromBounds(y, doy, m + 1);
    }
  }

  lemma {:induction false} DaysBeforeMonthMonotone(y: int, a: int, b: int)
    requires 1 <= a <= b <= 13
    ensures DaysBeforeMonth(y, a) <= DaysBeforeMonth(y, b)
    decreases b - a
  {
    if a < b {
      MonthStep(y, a);
      DaysBeforeMonthMonotone(y, a + 1, b);
    }
  }

  lemma {:induction false} MonthFromFinds(y: int, doy: int, start: int, m: int)
    requires 1 <= start <= m <= 12 && DaysBeforeMonth(y, start) <= doy
    requires DaysBeforeMonth(y, m) <= doy < DaysBeforeMonth(y, m + 1)
    ensures MonthFrom(y, doy, start) == m
    decreases m - start
  {
    MonthStep(y, 12);
    DaysBeforeMonthMonotone(y, m + 1, 13);
    if start < m {
      DaysBeforeMonthMonotone(y, start + 1, m);
      MonthFromFinds(y, doy, start + 1, m);
    }
  }

  datatype Date = Date(year: int, month: int, day: int)

  predicate ValidDate(dt: Date) {
    1 <= dt.month <= 12 && 1 <= dt.day <= DaysInMonth(dt.year, dt.month)
  }

  /** The day number of Go's `time.Date(y, m, dd, ...)` for any `m` and `dd`: the month is
      first brought into 1..12, carrying whole years, and then `dd - 1` days are added,
      so that month 13 is January of the next year and day 32 spills into the next month. */
  function DaysFromCivil(y: int, m: int, dd: int): int {
    var y' := y + (m - 1) / 12;
    var m' := (m - 1) % 12 + 1;
    DaysBeforeYear(y') + DaysBeforeMonth(y', m') + dd - 1
  }

  lemma DaysFromValidCivil(y: int, m: int, dd: int)
    requires 1 <= m <= 12
    ensures DaysFromCivil(y, m, dd) == DaysBeforeYear(y) + DaysBeforeMonth(y, m) + dd - 1
  {
    DivModUnique(m - 1, 12, 0, m - 1);
  }

  /** The calendar date of day number `d`. */
  function CivilFromDays(d: int): Date {
    var y := YearOf(d);
    var doy := d - DaysBeforeYear(y);
    var m := MonthFrom(y, doy, 1);
    Date(y, m, doy - DaysBeforeMonth(y, m) + 1)
  }

  /** The date of day number `d` is a valid date that `DaysFromCivil` maps back to `d`. */
  lemma CivilFromDaysValid(d: int)
    ensures ValidDate(CivilFromDays(d))
    ensures var dt := CivilFromDays(d); DaysFromCivil(dt.year, dt.month, dt.day) == d
  {
    var y := YearOf(d);
    YearOfBounds(d);
    var doy := d - DaysBeforeYear(y);
    YearStep(y);
    MonthFromBounds(y, doy, 1);
    var m := MonthFrom(y, doy, 1);
    MonthStep(y, m);
    DaysFromValidCivil(y, m, doy - DaysBeforeMonth(y, m) + 1);
  }

  /** Every valid date is the date of its own day number. */
  lemma CivilOfDays(dt: Date)
    requires ValidDate(dt)
    ensures CivilFromDays(DaysFromCivil(dt.year, dt.month, dt.day)) == dt
  {
    var y, m := dt.year, dt.month;
    var d := DaysFromCivil(y, m, dt.day);
    DaysFromValidCivil(y, m, dt.day);
    var doy := d - DaysBeforeYear(y);
    MonthStep(y, m);
    DaysBeforeMonthMonotone(y, 1, m);
    DaysBeforeMonthMonotone(y, m + 1, 13);
    assert 0 <= doy < YearLength(y);
    YearStep(y);
    YearOfUnique(d, y);
    MonthFromFinds(y, doy, 1, m);
    assert YearOf(d) == y;
    assert MonthFrom(y, doy, 1) == m;
    assert dt.day == doy - DaysBeforeMonth(y, m) + 1;
    assert CivilFromDays(d) == Date(y, m, doy - DaysBeforeMonth(y, m) + 1);
  }

  /** The first day of the month after `(y, m)`, as `time.Date(y, m + 1, 1, ...)` computes it,
      comes `DaysInMonth(y, m)` days after the first of `(y, m)`, also from December. */
  lemma NextMonthStart(y: int, m: int)
    requires 1 <= m <= 12
    ensures DaysFromCivil(y, m + 1, 1) == DaysFromCivil(y, m, 1) + DaysInMonth(y, m)
  {
    MonthStep(y, m);
    DaysFromValidCivil(y, m, 1);
    if m == 12 {
      DivModUnique(12, 12, 1, 0);
      YearStep(y);
    } else {
      DaysFromValidCivil(y, m + 1, 1);
    }
  }

  // ---------------------------------------------------------------------------
  // Instants at minute resolution

  function DayNumber(t: int): int { t / MinutesPerDay }

  function DateOf(t: int): Date { CivilFromDays(DayNumber(t)) }

  function HourOf(t: int): (h: int)
    ensures 0 <= h < 24
  {
    t % MinutesPerDay / 60
  }

  function MinuteOf(t: int): (mi: int)
    ensures 0 <= mi < 60
  {
    t % 60
  }

  /** Go's `time.Weekday`: 0 is Sunday; day 0 of the Unix epoch is a Thursday (4). */
  function Weekday(t: int): (w: int)
    ensures 0 <= w < 7
  {
    (DayNumber(t) + 4) % 7
  }

  /** 1 January 2000 was a Saturday: the weekdays line up with the real calendar. */
  lemma FirstOf2000IsSaturday()
    ensures Weekday(DaysFromCivil(2000, 1, 1) * MinutesPerDay) == 6
  {
    DaysFromValidCivil(2000, 1, 1);
    DaysBeforeYearClosedForm(2000);
    DaysBeforeYearClosedForm(1970);
    assert DaysBeforeYear(2000) == 10957;
    DivModUnique(10957 * MinutesPerDay, MinutesPerDay, 10957, 0);
  }

  /** A day later, the weekday is the next one, Saturday (6) being followed by Sunday (0). */
  lemma WeekdayNextDay(t: int)
    ensures Weekday(t + MinutesPerDay) == (Weekday(t) + 1) % 7
  {
    var d := DayNumber(t);
    DivModUnique(t + MinutesPerDay, MinutesPerDay, d + 1, t % MinutesPerDay);
    var q, r := (d + 4) / 7, (d + 4) % 7;
    assert d + 4 == q * 7 + r;
    if r < 6 {
      DivModUnique(d + 5, 7, q, r + 1);
      DivModUnique(r + 1, 7, 0, r + 1);
    } else {
      DivModUnique(d + 5, 7, q + 1, 0);
      DivModUnique(7, 7, 1, 0);
    }
  }

  /** Go's `time.Date(y, m, dd, h, mi, 0, 0, UTC)` as a minute number, with the same
      normalisation of out-of-range months, days and hours. */
  function DateTime(y: int, m: int, dd: int, h: int, mi: int): int {
    DaysFromCivil(y, m, dd) * MinutesPerDay + h * 60 + mi
  }

  /** Splitting a minute into date, hour and minute and putting it back together is the identity. */
  lemma DateTimeOfParts(t: int)
    ensures var dt := DateOf(t);
      DateTime(dt.year, dt.month, dt.day, HourOf(t), MinuteOf(t)) == t
  {
    var dt := DateOf(t);
    assert DaysFromCivil(dt.year, dt.month, dt.day) == DayNumber(t) by {
      CivilFromDaysValid(DayNumber(t));
    }
    MinuteSplit(t);
  }

  lemma MinuteSplit(t: int)
    ensures t == DayNumber(t) * MinutesPerDay + HourOf(t) * 60 + MinuteOf(t)
  {
    var d, r := t / MinutesPerDay, t % MinutesPerDay;
    assert t == d * MinutesPerDay + r && 0 <= r < MinutesPerDay;
    var h, m := r / 60, r % 60;
    assert r == h * 60 + m && 0 <= m < 60;
    DivModUnique(t, 60, d * 24 + h, m);
  }

  /** A minute within the `d`-th day lies on day `d`. */
  lemma DayOfMinute(u: int, d: int)
    requires d * MinutesPerDay <= u < d * MinutesPerDay + MinutesPerDay
    ensures DayNumber(u) == d
  {
    DivModUnique(u, MinutesPerDay, d, u - d * MinutesPerDay);
  }

  /** A minute within hour `h` of day `d` lies on day `d` at hour `h`. */
  lemma HourOfMinute(u: int, d: int, h: int)
    requires 0 <= h < 24
    requires d * MinutesPerDay + h * 60 <= u < d * MinutesPerDay + h * 60 + 60
    ensures DayNumber(u) == d && HourOf(u) == h
  {
    var r := u - d * MinutesPerDay;
    DivModUnique(u, MinutesPerDay, d, r);
    DivModUnique(r, 60, h, r - h * 60);
  }

  /** Leap years strictly before year `y`, counted from an arbitrary origin. */
  function LeapsBefore(y: int): int {
    (y - 1) / 4 - (y - 1) / 100 + (y - 1) / 400
  }

  lemma LeapStep(y: int)
    ensures LeapsBefore(y + 1) == LeapsBefore(y) + (if IsLeap(y) then 1 else 0)
  {
    DivStep(y, 4);
    DivStep(y, 100);
    DivStep(y, 400);
    if y % 100 == 0 {
      DivModUnique(y, 4, y / 100 * 25, 0);
    }
    if y % 400 == 0 {
      DivModUnique(y, 100, y / 400 * 4, 0);
    }
  }

  /** `DaysBeforeYear` agrees with the usual closed form: 365 days a year plus one per leap year. */
  lemma {:induction false} DaysBeforeYearClosedForm(y: int)
    ensures DaysBeforeYear(y) == 365 * (y - 1970) + LeapsBefore(y) - LeapsBefore(1970)
    decreases if y < 1970 then 1970 - y else y - 1970
  {
    if y > 1970 {
      DaysBeforeYearClosedForm(y - 1);
      LeapStep(y - 1);
    } else if y < 1970 {
      DaysBeforeYearClosedForm(y + 1);
      LeapStep(y);
    }
  }
}
