// The search for the next minute at which a five-field cron expression fires:
// a reference definition that tries every minute in turn, and the loop with
// month, day and hour skips that the scheduler runs, proved to agree with it.
module CronSearch {
  import opened Wrappers
  import opened GoStrings
  import opened Calendar
  import opened CronField
  import opened Arith

  // Times are in milliseconds since the Unix epoch; a whole minute is 60_000 of them.

  /** How far ahead the search looks: 366 days, in milliseconds. */
  const HorizonMs: int := 366 * 24 * 60 * 60 * 1000

  /** The values each of the five fields allows. */
  datatype CronSets = CronSets(
    minutes: set<int>, hours: set<int>, days: set<int>, months: set<int>, weekdays: set<int>)

  /** An expression of exactly five white-space separated fields, each valid for its range
      (minute 0-59, hour 0-23, day of month 1-31, month 1-12, day of week 0-6). */
  function ParseExpr(expr: string): Option<CronSets> {
    var fields := Fields(expr);
    if |fields| != 5 then None
    else
      match (FieldValues(fields[0], 0, 59), FieldValues(fields[1], 0, 23),
             FieldValues(fields[2], 1, 31), FieldValues(fields[3], 1, 12),
             FieldValues(fields[4], 0, 6))
      case (Some(mi), Some(h), Some(d), Some(mo), Some(w)) => Some(CronSets(mi, h, d, mo, w))
      case _ => None
  }

  predicate MonthOk(c: CronSets, t: int) { DateOf(t).month in c.months }

  /** Day of month AND day of week must both be allowed (not the either-or of POSIX cron). */
  predicate DayOk(c: CronSets, t: int) { DateOf(t).day in c.days && Weekday(t) in c.weekdays }

  predicate HourOk(c: CronSets, t: int) { HourOf(t) in c.hours }

  predicate MinuteOk(c: CronSets, t: int) { MinuteOf(t) in c.minutes }

  /** Minute number `t` (minutes since the epoch, UTC) is one at which the expression fires. */
  predicate Matches(c: CronSets, t: int) {
    MonthOk(c, t) && DayOk(c, t) && HourOk(c, t) && MinuteOk(c, t)
  }

  /** `Matches` as a function value, for the generic search below. */
  function Firing(c: CronSets): int -> bool {
    u => Matches(c, u)
  }

  /** The first minute from `t` on, starting before `limitMs`, at which `fires` holds:
      the plain minute-by-minute search that the skips of `NextCronTime` must agree with. */
  function FirstFiring(fires: int -> bool, t: int, limitMs: int): Option<int>
    decreases limitMs - t * 60_000
  {
    if t * 60_000 >= limitMs then None
    else if fires(t) then Some(t)
    else FirstFiring(fires, t + 1, limitMs)
  }

  /** `FirstFiring` finds a minute that fires, within bounds, with none before it, and
      reports `None` only when no minute in the range fires. */
  lemma {:induction false} FirstFiringSound(fires: int -> bool, t: int, limitMs: int)
    ensures FirstFiring(fires, t, limitMs).Some? ==>
      var r := FirstFiring(fires, t, limitMs).value;
      t <= r && r * 60_000 < limitMs && fires(r) && forall u :: t <= u < r ==> !fires(u)
    ensures FirstFiring(fires, t, limitMs).None? ==>
      forall u :: t <= u && u * 60_000 < limitMs ==> !fires(u)
    decreases limitMs - t * 60_000
  {
    if t * 60_000 < limitMs && !fires(t) {
      FirstFiringSound(fires, t + 1, limitMs);
    }
  }

  /** The minute after the one containing `afterMs` (Go's `Truncate(time.Minute).Add(time.Minute)`). */
  function StartMinute(afterMs: int): int {
    afterMs / 60_000 + 1
  }

  /** `StartMinute` is the first whole minute strictly after `afterMs`. */
  lemma StartMinuteBounds(afterMs: int)
    ensures afterMs < StartMinute(afterMs) * 60_000 <= afterMs + 60_000
    ensures forall u :: afterMs < u * 60_000 ==> StartMinute(afterMs) <= u
  {
    var q, r := afterMs / 60_000, afterMs % 60_000;
    assert afterMs == q * 60_000 + r && 0 <= r < 60_000;
  }

  /** The first whole minute strictly after `afterMs` and before `afterMs + HorizonMs` at
      which `fires` holds, in milliseconds, or `None` if there is none. */
  function NextFiring(fires: int -> bool, afterMs: int): Option<int> {
    match FirstFiring(fires, StartMinute(afterMs), afterMs + HorizonMs)
    case None => None
    case Some(t) => Some(t * 60_000)
  }

  /** A time `NextFiring` returns is a whole minute after `afterMs`, within the horizon,
      at which `fires` holds. */
  lemma NextFiringSound(fires: int -> bool, afterMs: int)
    ensures NextFiring(fires, afterMs).Some? ==>
      var r := NextFiring(fires, afterMs).value;
      afterMs < r < afterMs + HorizonMs && r % 60_000 == 0 && fires(r / 60_000)
  {
    var t0 := StartMinute(afterMs);
    FirstFiringSound(fires, t0, afterMs + HorizonMs);
    StartMinuteBounds(afterMs);
    if FirstFiring(fires, t0, afterMs + HorizonMs).Some? {
      var t := FirstFiring(fires, t0, afterMs + HorizonMs).value;
      DivModUnique(t * 60_000, 60_000, t, 0);
    }
  }

  /** `nextCronTime(expr, after)`: `None` for an invalid expression, else its next firing. */
  function CronNext(expr: string, afterMs: int): Option<int> {
    match ParseExpr(expr)
    case None => None
    case Some(c) => NextFiring(Firing(c), afterMs)
  }

  /** A time `CronNext` returns is one at which every field of the expression matches. */
  lemma CronNextMatches(expr: string, afterMs: int)
    requires CronNext(expr, afterMs).Some?
    ensures ParseExpr(expr).Some?
    ensures Matches(ParseExpr(expr).value, CronNext(expr, afterMs).value / 60_000)
  {
    var c := ParseExpr(expr).value;
    NextFiringSound(Firing(c), afterMs);
    assert Firing(c)(CronNext(expr, afterMs).value / 60_000);
  }

  /** No whole minute after `afterMs` and before the one `CronNext` returns matches; when it
      returns `None` for a valid expression, no minute within the horizon matches. */
  lemma CronNextEarliest(expr: string, afterMs: int, u: int)
    requires ParseExpr(expr).Some? && afterMs < u * 60_000
    requires CronNext(expr, afterMs).Some? ==> u * 60_000 < CronNext(expr, afterMs).value
    requires CronNext(expr, afterMs).None? ==> u * 60_000 < afterMs + HorizonMs
    ensures !Matches(ParseExpr(expr).value, u)
  {
    var c := ParseExpr(expr).value;
    NextFiringEarliest(Firing(c), afterMs, u);
    assert !Firing(c)(u);
  }

  /** No minute before the returned one, or within the horizon when there is none, fires. */
  lemma NextFiringEarliest(fires: int -> bool, afterMs: int, u: int)
    requires afterMs < u * 60_000
    requires NextFiring(fires, afterMs).Some? ==> u * 60_000 < NextFiring(fires, afterMs).value
    requires NextFiring(fires, afterMs).None? ==> u * 60_000 < afterMs + HorizonMs
    ensures !fires(u)
  {
    StartMinuteBounds(afterMs);
    FirstFiringSound(fires, StartMinute(afterMs), afterMs + HorizonMs);
    FirstFiringEarliest(fires, StartMinute(afterMs), afterMs + HorizonMs, u);
  }

  lemma FirstFiringEarliest(fires: int -> bool, t: int, limitMs: int, u: int)
    requires t <= u && u * 60_000 < limitMs
    requires FirstFiring(fires, t, limitMs).Some? ==> u < FirstFiring(fires, t, limitMs).value
    ensures !fires(u)
  {
    FirstFiringSound(fires, t, limitMs);
  }

  /** An expression without exactly five fields, or with any invalid field, never fires. */
  lemma InvalidExprNeverFires(expr: string, afterMs: int)
    ensures |Fields(expr)| != 5 ==> CronNext(expr, afterMs).None?
    ensures |Fields(expr)| == 5 &&
      (|| FieldValues(Fields(expr)[0], 0, 59).None? || FieldValues(Fields(expr)[1], 0, 23).None?
       || FieldValues(Fields(expr)[2], 1, 31).None? || FieldValues(Fields(expr)[3], 1, 12).None?
       || FieldValues(Fields(expr)[4], 0, 6).None?)
      ==> CronNext(expr, afterMs).None?
  {
  }

  // ---------------------------------------------------------------------------
  // Why the skips are safe

  /** Skipping minutes at none of which the expression fires does not change the first firing. */
  lemma {:induction false} SkipPreserves(fires: int -> bool, t: int, t': int, limitMs: int)
    requires t <= t'
    requires forall u :: t <= u < t' ==> !fires(u)
    ensures FirstFiring(fires, t, limitMs) == FirstFiring(fires, t', limitMs)
    decreases t' - t
  {
    if t < t' && t * 60_000 < limitMs {
      SkipPreserves(fires, t + 1, t', limitMs);
    }
  }

  /** `fires` holds at exactly the minutes that match `c`; the trigger keeps the calendar
      out of proofs that never ask whether a particular minute matches. */
  ghost predicate FiringOf(fires: int -> bool, c: CronSets) {
    forall u {:trigger Matches(c, u)} :: fires(u) == Matches(c, u)
  }

  lemma FiringIsFiringOf(c: CronSets)
    ensures FiringOf(Firing(c), c)
  {
  }

  /** Every day from `dd` to the end of month `(y, m)` is dated `(y, m, ...)`. */
  lemma RestOfMonth(y: int, m: int, dd: int, d: int)
    requires ValidDate(Date(y, m, dd))
    requires DaysFromCivil(y, m, dd) <= d < DaysFromCivil(y, m, 1) + DaysInMonth(y, m)
    ensures CivilFromDays(d) == Date(y, m, d - DaysFromCivil(y, m, 1) + 1)
  {
    DaysFromValidCivil(y, m, dd);
    DaysFromValidCivil(y, m, 1);
    var e := Date(y, m, d - DaysFromCivil(y, m, 1) + 1);
    DaysFromValidCivil(y, m, e.day);
    CivilOfDays(e);
  }

  /** Where the loop of `NextCronTime` goes from a minute `t` that does not match: the first
      of the next month, midnight of the next day, the start of the next hour, or `t + 1`,
      depending on the first of month, day and hour that does not match. */
  function JumpTarget(c: CronSets, t: int): int {
    var dt := DateOf(t);
    if !MonthOk(c, t) then DateTime(dt.year, dt.month + 1, 1, 0, 0)
    else if !DayOk(c, t) then DateTime(dt.year, dt.month, dt.day + 1, 0, 0)
    else if !HourOk(c, t) then DateTime(dt.year, dt.month, dt.day, HourOf(t) + 1, 0)
    else t + 1
  }

  /** The search stops at a minute that matches. */
  lemma FiresHere(c: CronSets, fires: int -> bool, t: int, limitMs: int)
    requires FiringOf(fires, c) && Matches(c, t) && t * 60_000 < limitMs
    ensures FirstFiring(fires, t, limitMs) == Some(t)
  {
  }

  /** Jumping from a minute that does not match to its `JumpTarget` keeps the first firing. */
  lemma JumpPreserves(c: CronSets, fires: int -> bool, t: int, next: int, limitMs: int)
    requires FiringOf(fires, c) && !Matches(c, t) && next == JumpTarget(c, t)
    ensures t < next
    ensures FirstFiring(fires, t, limitMs) == FirstFiring(fires, next, limitMs)
  {
    if !MonthOk(c, t) {
      MonthSkip(c, t, next);
      NoneFires(c, fires, t, next);
    } else if !DayOk(c, t) {
      DaySkip(c, t, next);
      NoneFires(c, fires, t, next);
    } else if !HourOk(c, t) {
      HourSkip(c, t, next);
      NoneFires(c, fires, t, next);
    } else {
      NoneFires(c, fires, t, next);
    }
    SkipPreserves(fires, t, next, limitMs);
  }

  /** Minutes that do not match are minutes at which the expression does not fire. */
  lemma NoneFires(c: CronSets, fires: int -> bool, t: int, next: int)
    requires FiringOf(fires, c)
    requires forall u :: t <= u < next ==> !Matches(c, u)
    ensures forall u :: t <= u < next ==> !fires(u)
  {
    forall u | t <= u < next
      ensures !fires(u)
    {
      assert !Matches(c, u);
    }
  }

  /** The jump to the first of the next month when the month does not match. */
  lemma MonthSkip(c: CronSets, t: int, next: int)
    requires !MonthOk(c, t) && next == DateTime(DateOf(t).year, DateOf(t).month + 1, 1, 0, 0)
    ensures t < next && forall u :: t <= u < next ==> !Matches(c, u)
  {
    var dt := DateOf(t);
    var y, m := dt.year, dt.month;
    CivilFromDaysValid(DayNumber(t));
    var first := DaysFromCivil(y, m, 1);
    assert DayNumber(t) < first + DaysInMonth(y, m) && next == (first + DaysInMonth(y, m)) * MinutesPerDay by {
      NextMonthStart(y, m);
      DaysFromValidCivil(y, m, dt.day);
      DaysFromValidCivil(y, m, 1);
    }
    forall u | t <= u < next
      ensures !Matches(c, u)
    {
      var d := DayNumber(u);
      assert DaysFromCivil(y, m, dt.day) <= d < first + DaysInMonth(y, m);
      RestOfMonth(y, m, dt.day, d);
      assert DateOf(u).month == m;
    }
  }

  /** The jump to midnight of the next day when day of month or day of week does not match. */
  lemma DaySkip(c: CronSets, t: int, next: int)
    requires !DayOk(c, t) && next == DateTime(DateOf(t).year, DateOf(t).month, DateOf(t).day + 1, 0, 0)
    ensures t < next && forall u :: t <= u < next ==> !Matches(c, u)
  {
    var d := DayNumber(t);
    assert next == (d + 1) * MinutesPerDay by {
      CivilFromDaysValid(d);
    }
    assert d * MinutesPerDay <= t by {
      MinuteSplit(t);
    }
    forall u | t <= u < next
      ensures !Matches(c, u)
    {
      DayOfMinute(u, d);
    }
  }

  /** The jump to the start of the next hour when the hour does not match. */
  lemma HourSkip(c: CronSets, t: int, next: int)
    requires !HourOk(c, t)
    requires next == DateTime(DateOf(t).year, DateOf(t).month, DateOf(t).day, HourOf(t) + 1, 0)
    ensures t < next && forall u :: t <= u < next ==> !Matches(c, u)
  {
    var d := DayNumber(t);
    var h := HourOf(t);
    assert next == d * MinutesPerDay + h * 60 + 60 by {
      CivilFromDaysValid(d);
    }
    assert d * MinutesPerDay + h * 60 <= t by {
      MinuteSplit(t);
    }
    forall u | t <= u < next
      ensures !Matches(c, u)
    {
      HourOfMinute(u, d, h);
    }
  }

  // ---------------------------------------------------------------------------
  // The search as the scheduler runs it

  /** Go's `nextCronTime`, with `after` and the result in milliseconds since the epoch:
      parses the five fields, then walks forward from the next whole minute, jumping over
      months, days and hours that cannot match, until a match or the horizon. */
  method NextCronTime(expr: string, afterMs: int) returns (r: Option<int>)
    ensures r == CronNext(expr, afterMs)
  {
    var fields := Fields(expr);
    if |fields| != 5 {
      return None;
    }
    var minuteSet := ParseCronField(fields[0], 0, 59);
    var hourSet := ParseCronField(fields[1], 0, 23);
    var domSet := ParseCronField(fields[2], 1, 31);
    var monthSet := ParseCronField(fields[3], 1, 12);
    var dowSet := ParseCronField(fields[4], 0, 6);
    if minuteSet.None? || hourSet.None? || domSet.None? || monthSet.None? || dowSet.None? {
      return None;
    }
    var c := CronSets(minuteSet.value, hourSet.value, domSet.value, monthSet.value, dowSet.value);
    assert ParseExpr(expr) == Some(c);
    FiringIsFiringOf(c);
    r := SearchFrom(c, afterMs, Firing(c));
  }

  /** The search loop of `nextCronTime` once the five fields are parsed into `c`: from the
      next whole minute, up to the horizon. */
  method SearchFrom(c: CronSets, afterMs: int, ghost fires: int -> bool) returns (r: Option<int>)
    requires FiringOf(fires, c)
    ensures r == NextFiring(fires, afterMs)
  {
    var t := StartMinute(afterMs);
    var limit := afterMs + HorizonMs;
    while t * 60_000 < limit
      invariant FirstFiring(fires, t, limit) == FirstFiring(fires, StartMinute(afterMs), limit)
      decreases limit - t * 60_000
    {
      var found, next := Step(c, t, fires, limit);
      if found {
        return Some(t * 60_000);
      }
      t := next;
    }
    return None;
  }

  /** One round of the loop of `nextCronTime` at minute `t`: stop when every field matches;
      otherwise go to the first of the next month when the month does not match, else to
      midnight of the next day when the day of month or of week does not, else to the next
      hour when the hour does not, else to the next minute. Going on moves forward and
      skips no firing. */
  method Step(c: CronSets, t: int, ghost fires: int -> bool, ghost limitMs: int) returns (found: bool, next: int)
    requires FiringOf(fires, c) && t * 60_000 < limitMs
    ensures found ==> FirstFiring(fires, t, limitMs) == Some(t)
    ensures !found ==> t < next && FirstFiring(fires, t, limitMs) == FirstFiring(fires, next, limitMs)
  {
    if Matches(c, t) {
      FiresHere(c, fires, t, limitMs);
      return true, t;
    }
    found := false;
    var dt := DateOf(t);
    if dt.month !in c.months {
      next := DateTime(dt.year, dt.month + 1, 1, 0, 0);
    } else if dt.day !in c.days || Weekday(t) !in c.weekdays {
      next := DateTime(dt.year, dt.month, dt.day + 1, 0, 0);
    } else if HourOf(t) !in c.hours {
      next := DateTime(dt.year, dt.month, dt.day, HourOf(t) + 1, 0);
    } else {
      next := t + 1;
    }
    JumpPreserves(c, fires, t, next, limitMs);
  }
}
