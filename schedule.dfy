// A job's schedule and the time of its next run.
module Schedule {
  import opened Wrappers
  import opened CronSearch

  /** When a job runs: `kind` is "at" (once, at `atMs`), "every" (every `everyMs`
      milliseconds) or "cron" (a five-field expression in `expr`); a job of any other
      kind never runs. `tz` names the zone the expression is read in; this model
      reads every expression in UTC. */
  datatype CronSchedule = CronSchedule(
    kind: string, atMs: Option<int>, everyMs: Option<int>, expr: string, tz: string)

  /** `computeNextRun(schedule, nowMs)`: the time the job runs next, if it ever does. */
  function ComputeNextRun(s: CronSchedule, nowMs: int): Option<int> {
    if s.kind == "at" then
      if s.atMs.Some? && s.atMs.value > nowMs then s.atMs else None
    else if s.kind == "every" then
      if s.everyMs.None? || s.everyMs.value <= 0 then None else Some(nowMs + s.everyMs.value)
    else if s.kind == "cron" && s.expr != "" then
      CronNext(s.expr, nowMs)
    else
      None
  }

  /** A next run is always strictly later than the time it was computed at. */
  lemma NextRunIsLater(s: CronSchedule, nowMs: int)
    ensures ComputeNextRun(s, nowMs).Some? ==> ComputeNextRun(s, nowMs).value > nowMs
  {
    if s.kind == "cron" && s.expr != "" && ParseExpr(s.expr).Some? {
      NextFiringSound(Firing(ParseExpr(s.expr).value), nowMs);
    }
  }

  /** What each kind of schedule gives: the `at` time while it is still ahead, `now`
      plus a positive period, the next firing of a valid cron expression, and nothing
      for any other kind. */
  lemma NextRunByKind(s: CronSchedule, nowMs: int)
    ensures s.kind == "at" ==>
      ComputeNextRun(s, nowMs) == (if s.atMs.Some? && s.atMs.value > nowMs then s.atMs else None)
    ensures s.kind == "every" ==>
      (ComputeNextRun(s, nowMs).Some? <==> s.everyMs.Some? && s.everyMs.value > 0) &&
      (ComputeNextRun(s, nowMs).Some? ==> ComputeNextRun(s, nowMs).value - nowMs == s.everyMs.value)
    ensures s.kind != "at" && s.kind != "every" && s.kind != "cron" ==> ComputeNextRun(s, nowMs).None?
    ensures s.kind == "cron" && ParseExpr(s.expr).None? ==> ComputeNextRun(s, nowMs).None?
    ensures s.kind == "cron" && ComputeNextRun(s, nowMs).Some? ==>
      var r := ComputeNextRun(s, nowMs).value;
      ParseExpr(s.expr).Some? && Matches(ParseExpr(s.expr).value, r / 60_000) &&
      r % 60_000 == 0 && nowMs < r < nowMs + HorizonMs
  {
    if s.kind == "cron" && ComputeNextRun(s, nowMs).Some? {
      CronNextMatches(s.expr, nowMs);
      NextFiringSound(Firing(ParseExpr(s.expr).value), nowMs);
    }
  }

  /** A cron schedule skips no firing: no whole minute after `now` and before the next
      run (or, when there is none, before the horizon) matches the expression. */
  lemma CronRunIsEarliest(s: CronSchedule, nowMs: int, u: int)
    requires s.kind == "cron" && ParseExpr(s.expr).Some? && nowMs < u * 60_000
    requires ComputeNextRun(s, nowMs).Some? ==> u * 60_000 < ComputeNextRun(s, nowMs).value
    requires ComputeNextRun(s, nowMs).None? ==> u * 60_000 < nowMs + HorizonMs
    ensures !Matches(ParseExpr(s.expr).value, u)
  {
    assert s.expr != [];
    CronNextEarliest(s.expr, nowMs, u);
  }
}
