// The scheduler itself (`CronService`): the in-memory job store and the operations
// that change it in place. Reading and writing the store file, the clock and the job
// handler are inputs of the operations.
module Service {
  import opened Wrappers
  import opened Schedule
  import opened Jobs

  /** The jobs `loadStore` leaves in the store: those read from the file (none when
      there is no file), or none when reading failed. */
  function LoadedJobs(load: Result<seq<Job>>): seq<Job> {
    if load.Ok? then load.value else []
  }

  /** The store a tick works on: the one in memory, or, when the file changed on disk
      since it was last read or written, the file's jobs with their next runs recomputed. */
  function TickStore(js: seq<Job>, reloaded: Option<seq<Job>>, nowMs: int): seq<Job> {
    if reloaded.Some? then RecomputeAll(reloaded.value, nowMs) else js
  }

  class CronService {
    /** The store's jobs, in order. */
    var jobs: seq<Job>
    /** Whether the service has been started and not stopped since. */
    var running: bool

    /** `NewCronService`: the store as loaded from the file; a load error is ignored. */
    constructor (load: Result<seq<Job>>)
      ensures jobs == LoadedJobs(load) && !running
    {
      jobs := LoadedJobs(load);
      running := false;
    }

    /** Starting a started service does nothing. Otherwise the store is reloaded, its next
        runs recomputed and saved, and only then does the service run; a failed load or
        save is reported with its cause and leaves the service stopped. */
    method Start(load: Result<seq<Job>>, nowMs: int, saveErr: Option<string>) returns (err: Option<string>)
      modifies this
      ensures old(running) ==> jobs == old(jobs) && running && err.None?
      ensures !old(running) && load.Err? ==>
        jobs == [] && !running && err == Some("failed to load store: " + load.message)
      ensures !old(running) && load.Ok? ==>
        jobs == RecomputeAll(load.value, nowMs) && running == saveErr.None? &&
        err == (if saveErr.Some? then Some("failed to save store: " + saveErr.value) else None)
    {
      if running {
        return None;
      }
      jobs := LoadedJobs(load);
      if load.Err? {
        return Some("failed to load store: " + load.message);
      }
      RecomputeNextRuns(nowMs);
      if saveErr.Some? {
        return Some("failed to save store: " + saveErr.value);
      }
      running := true;
      err := None;
    }

    /** Stopping leaves the service stopped, whether or not it was running. */
    method Stop()
      modifies this`running
      ensures !running
    {
      if running {
        running := false;
      }
    }

    /** `recomputeNextRuns`: every enabled job gets its next run from `nowMs`. */
    method RecomputeNextRuns(nowMs: int)
      modifies this`jobs
      ensures jobs == RecomputeAll(old(jobs), nowMs)
    {
      var i := 0;
      while i < |jobs|
        invariant 0 <= i <= |jobs| == |old(jobs)|
        invariant forall k :: 0 <= k < i ==> jobs[k] == Recompute(old(jobs)[k], nowMs)
        invariant forall k :: i <= k < |jobs| ==> jobs[k] == old(jobs)[k]
      {
        if jobs[i].enabled {
          jobs := jobs[i := jobs[i].(state := jobs[i].state.(nextRunAtMs := ComputeNextRun(jobs[i].schedule, nowMs)))];
        }
        i := i + 1;
      }
    }

    /** The position of the first job with the id. */
    method Find(id: string) returns (r: Option<nat>)
      ensures r.Some? ==> r.value < |jobs| && jobs[r.value].id == id
      ensures r.Some? ==> forall k :: 0 <= k < r.value ==> jobs[k].id != id
      ensures r.None? ==> forall k :: 0 <= k < |jobs| ==> jobs[k].id != id
      ensures r == FindIndex(jobs, id)
    {
      var i := 0;
      while i < |jobs|
        invariant 0 <= i <= |jobs|
        invariant forall k :: 0 <= k < i ==> jobs[k].id != id
      {
        if jobs[i].id == id {
          return Some(i);
        }
        i := i + 1;
      }
      return None;
    }

    /** `removeJobUnsafe`: drops every job with the id, keeps the others in order, and
        reports whether the store shrank, which it does iff some job had the id. */
    method RemoveJobUnsafe(id: string) returns (removed: bool)
      modifies this`jobs
      ensures jobs == WithoutId(old(jobs), id)
      ensures removed == (|jobs| < |old(jobs)|)
      ensures removed <==> exists i :: 0 <= i < |old(jobs)| && old(jobs)[i].id == id
    {
      var before := |jobs|;
      var kept: seq<Job> := [];
      var i := 0;
      while i < |jobs|
        invariant 0 <= i <= |jobs|
        invariant kept == WithoutId(jobs[..i], id)
      {
        if jobs[i].id != id {
          kept := kept + [jobs[i]];
        }
        assert jobs[..i + 1][..i] == jobs[..i];
        i := i + 1;
      }
      assert jobs[..i] == jobs;
      RemovedExactly(jobs, id);
      jobs := kept;
      removed := |jobs| < before;
    }

    /** `RemoveJob`: `removeJobUnsafe` taken under the store's lock. */
    method RemoveJob(id: string) returns (removed: bool)
      modifies this`jobs
      ensures jobs == WithoutId(old(jobs), id)
      ensures removed <==> exists i :: 0 <= i < |old(jobs)| && old(jobs)[i].id == id
    {
      removed := RemoveJobUnsafe(id);
    }

    /** `EnableJob`: switches the first job with the id on (with a fresh next run) or off
        (with none) and returns it as updated; an unknown id changes nothing. */
    method EnableJob(id: string, enabled: bool, nowMs: int) returns (r: Option<Job>)
      modifies this`jobs
      ensures FindIndex(old(jobs), id).None? ==> jobs == old(jobs) && r.None?
      ensures FindIndex(old(jobs), id).Some? ==>
        var i := FindIndex(old(jobs), id).value;
        jobs == old(jobs)[i := SetEnabled(old(jobs)[i], enabled, nowMs)] && r == Some(jobs[i])
    {
      var found := Find(id);
      if found.Some? {
        var i := found.value;
        jobs := jobs[i := SetEnabled(jobs[i], enabled, nowMs)];
        r := Some(jobs[i]);
      } else {
        r := None;
      }
    }

    /** `AddJob`, with `id` the fresh identifier it generates: the new job is appended
        even when saving the store fails, and the save error is then returned instead. */
    method AddJob(id: string, name: string, schedule: CronSchedule, message: string,
                  deliver: bool, channel: string, to: string, nowMs: int,
                  saveErr: Option<string>) returns (r: Result<Job>)
      requires forall k :: 0 <= k < |jobs| ==> jobs[k].id != id
      modifies this`jobs
      ensures jobs == old(jobs) + [NewJob(id, name, schedule, message, deliver, channel, to, nowMs)]
      ensures r == if saveErr.Some? then Err(saveErr.value)
                   else Ok(NewJob(id, name, schedule, message, deliver, channel, to, nowMs))
      ensures UniqueIds(old(jobs)) ==> UniqueIds(jobs)
    {
      var job := NewJob(id, name, schedule, message, deliver, channel, to, nowMs);
      jobs := jobs + [job];
      if saveErr.Some? {
        return Err(saveErr.value);
      }
      return Ok(job);
    }

    /** `ListJobs`: all jobs, or only the enabled ones, in store order. */
    method ListJobs(includeDisabled: bool) returns (r: seq<Job>)
      ensures r == if includeDisabled then jobs else EnabledJobs(jobs)
      ensures forall x :: x in r <==> x in jobs && (includeDisabled || x.enabled)
    {
      if includeDisabled {
        return jobs;
      }
      r := [];
      var i := 0;
      while i < |jobs|
        invariant 0 <= i <= |jobs|
        invariant r == EnabledJobs(jobs[..i])
      {
        if jobs[i].enabled {
          r := r + [jobs[i]];
        }
        assert jobs[..i + 1][..i] == jobs[..i];
        i := i + 1;
      }
      assert jobs[..i] == jobs;
      ListedExactly(jobs);
    }

    /** `getNextWakeMS`: the earliest next run of an enabled job, or none if no enabled
        job has one. */
    method NextWakeMs() returns (r: Option<int>)
      ensures r == NextWake(jobs)
      ensures r.Some? ==> exists i :: 0 <= i < |jobs| && Scheduled(jobs[i]) && jobs[i].state.nextRunAtMs == r
      ensures r.Some? ==> forall i :: 0 <= i < |jobs| && Scheduled(jobs[i]) ==> r.value <= jobs[i].state.nextRunAtMs.value
      ensures r.None? <==> forall i :: 0 <= i < |jobs| ==> !Scheduled(jobs[i])
    {
      r := None;
      var i := 0;
      while i < |jobs|
        invariant 0 <= i <= |jobs|
        invariant r == NextWake(jobs[..i])
      {
        var job := jobs[i];
        if job.enabled && job.state.nextRunAtMs.Some? {
          if r.None? || job.state.nextRunAtMs.value < r.value {
            r := job.state.nextRunAtMs;
          }
        }
        assert jobs[..i + 1][..i] == jobs[..i];
        i := i + 1;
      }
      assert jobs[..i] == jobs;
      NextWakeIsMinimum(jobs);
    }

    /** The due selection of `checkJobs`: the ids of the enabled jobs whose next run is not
        after `nowMs`, in store order. */
    method CollectDue(nowMs: int) returns (ids: seq<string>)
      ensures ids == IdsOf(DueJobs(jobs, nowMs))
    {
      ids := [];
      var i := 0;
      while i < |jobs|
        invariant 0 <= i <= |jobs|
        invariant ids == IdsOf(DueJobs(jobs[..i], nowMs))
      {
        var job := jobs[i];
        assert jobs[..i + 1] == jobs[..i] + [job];
        FilterSnoc(jobs[..i], job, DueAt(nowMs));
        if job.enabled && job.state.nextRunAtMs.Some? && job.state.nextRunAtMs.value <= nowMs {
          IdsOfSnoc(DueJobs(jobs[..i], nowMs), job);
          ids := ids + [job.id];
        } else {
          assert DueJobs(jobs[..i + 1], nowMs) == DueJobs(jobs[..i], nowMs);
        }
        assert ids == IdsOf(DueJobs(jobs[..i + 1], nowMs));
        i := i + 1;
      }
      assert jobs[..i] == jobs;
    }

    /** `executeJob` for the job with the id, whose handler run gives `outcome(job)`: a
        one-shot job marked for deletion is removed, any other is updated after its run. */
    method ExecuteJob(id: string, outcome: Job -> Run)
      modifies this`jobs
      ensures jobs == ExecuteById(old(jobs), id, outcome)
    {
      var found := Find(id);
      if found.Some? {
        var i := found.value;
        var job := jobs[i];
        if job.schedule.kind == "at" && job.deleteAfterRun {
          var _ := RemoveJobUnsafe(id);
        } else {
          jobs := jobs[i := AfterRun(job, outcome(job))];
        }
      }
    }

    /** One tick of `checkJobs` at `nowMs`: nothing unless running; otherwise the store,
        reloaded if the file changed, has its due jobs executed one after the other. When
        the store's ids are distinct, a job that ran is not due any more when the tick ends,
        and every job that did not run is kept. */
    method CheckJobs(nowMs: int, reloaded: Option<seq<Job>>, outcome: Job -> Run)
      modifies this`jobs
      ensures !running ==> jobs == old(jobs)
      ensures running ==>
        var start := TickStore(old(jobs), reloaded, nowMs);
        jobs == RunDue(start, IdsOf(DueJobs(start, nowMs)), outcome)
      ensures running && UniqueIds(TickStore(old(jobs), reloaded, nowMs)) &&
              (forall j :: outcome(j).endMs >= nowMs) ==>
        var start := TickStore(old(jobs), reloaded, nowMs);
        var ran := IdsOf(DueJobs(start, nowMs));
        (forall x :: x in jobs && x.id in ran ==> !IsDue(x, nowMs)) &&
        (forall x :: x in start && x.id !in ran ==> x in jobs) &&
        (forall x :: x in jobs && x.id !in ran ==> x in start)
    {
      if !running {
        return;
      }
      if reloaded.Some? {
        jobs := reloaded.value;
        RecomputeNextRuns(nowMs);
      }
      ghost var start := jobs;
      var ids := CollectDue(nowMs);
      var k := 0;
      while k < |ids|
        invariant 0 <= k <= |ids|
        invariant jobs == RunDue(start, ids[..k], outcome)
      {
        ExecuteJob(ids[k], outcome);
        assert ids[..k + 1][..k] == ids[..k];
        k := k + 1;
      }
      assert ids[..k] == ids;
      if UniqueIds(start) && forall j :: outcome(j).endMs >= nowMs {
        RanJobsNotDue(start, ids, outcome, nowMs);
      }
    }
  }
}
