// Jobs and the operations on an ordered list of them that the scheduler performs:
// filtering, lookup by id, the update after a run, the bulk recomputation of next
// runs and the earliest wake-up time.
module Jobs {
  import opened Wrappers
  import opened Schedule

  datatype Payload = Payload(kind: string, message: string, deliver: bool, channel: string, to: string)

  datatype JobState = JobState(
    nextRunAtMs: Option<int>, lastRunAtMs: Option<int>, lastStatus: string, lastError: string)

  datatype Job = Job(
    id: string, name: string, enabled: bool, schedule: CronSchedule, payload: Payload,
    state: JobState, createdAtMs: int, updatedAtMs: int, deleteAfterRun: bool)

  /** One execution of a job's handler: the clock when it started, the clock once it
      returned, and its error message if it failed. */
  datatype Run = Run(startMs: int, endMs: int, error: Option<string>)

  /** The job has a next run. */
  predicate Scheduled(j: Job) {
    j.enabled && j.state.nextRunAtMs.Some?
  }

  /** The job is to be executed by a tick at `nowMs`. */
  predicate IsDue(j: Job, nowMs: int) {
    Scheduled(j) && j.state.nextRunAtMs.value <= nowMs
  }

  /** No two jobs share an id. */
  predicate UniqueIds(js: seq<Job>) {
    forall i, k :: 0 <= i < k < |js| ==> js[i].id != js[k].id
  }

  // ---------------------------------------------------------------------------
  // Filtering, as the loops that append the jobs they keep to a new slice do it

  /** The jobs of `js` that satisfy `keep`, in their order. */
  function Filter(js: seq<Job>, keep: Job -> bool): seq<Job> {
    if js == [] then []
    else Filter(js[..|js| - 1], keep) + (if keep(js[|js| - 1]) then [js[|js| - 1]] else [])
  }

  /** `Filter` keeps exactly the jobs that satisfy `keep`, and drops one iff some job fails it. */
  lemma {:induction false} FilterMembers(js: seq<Job>, keep: Job -> bool)
    ensures forall x :: x in Filter(js, keep) <==> x in js && keep(x)
    ensures |Filter(js, keep)| <= |js|
    ensures |Filter(js, keep)| < |js| <==> exists i :: 0 <= i < |js| && !keep(js[i])
  {
    if js != [] {
      var init := js[..|js| - 1];
      FilterMembers(init, keep);
      var last := js[|js| - 1];
      assert js == init + [last];
      if keep(last) && exists i :: 0 <= i < |js| && !keep(js[i]) {
        var i :| 0 <= i < |js| && !keep(js[i]);
        assert i < |init| && init[i] == js[i];
      }
    }
  }

  /** Filtering a concatenation filters each part: the kept jobs stay in their order. */
  lemma {:induction false} FilterAppend(a: seq<Job>, b: seq<Job>, keep: Job -> bool)
    ensures Filter(a + b, keep) == Filter(a, keep) + Filter(b, keep)
    decreases |b|
  {
    if b == [] {
      assert a + b == a;
    } else {
      var b' := b[..|b| - 1];
      assert (a + b)[..|a + b| - 1] == a + b';
      FilterAppend(a, b', keep);
    }
  }

  /** Nothing is kept when no job satisfies `keep`. */
  lemma {:induction false} FilterNone(js: seq<Job>, keep: Job -> bool)
    requires forall i :: 0 <= i < |js| ==> !keep(js[i])
    ensures Filter(js, keep) == []
  {
    if js != [] {
      var init := js[..|js| - 1];
      assert forall i :: 0 <= i < |init| ==> init[i] == js[i];
      FilterNone(init, keep);
    }
  }

  /** Filtering one more job: how the loops that build a filtered slice take a step. */
  lemma FilterSnoc(js: seq<Job>, x: Job, keep: Job -> bool)
    ensures Filter(js + [x], keep) == Filter(js, keep) + (if keep(x) then [x] else [])
  {
    assert (js + [x])[..|js|] == js;
  }

  /** Filtering a list without duplicate ids gives one without duplicate ids. */
  lemma {:induction false} FilterKeepsUniqueIds(js: seq<Job>, keep: Job -> bool)
    requires UniqueIds(js)
    ensures UniqueIds(Filter(js, keep))
  {
    if js != [] {
      var init := js[..|js| - 1];
      var last := js[|js| - 1];
      assert UniqueIds(init);
      FilterKeepsUniqueIds(init, keep);
      FilterMembers(init, keep);
      var f := Filter(init, keep);
      forall i | 0 <= i < |f| ensures f[i].id != last.id {
        assert f[i] in init;
      }
    }
  }

  function OtherId(id: string): Job -> bool {
    (j: Job) => j.id != id
  }

  function IsEnabled(): Job -> bool {
    (j: Job) => j.enabled
  }

  function DueAt(nowMs: int): Job -> bool {
    (j: Job) => IsDue(j, nowMs)
  }

  /** The store after `removeJobUnsafe(id)`. */
  function WithoutId(js: seq<Job>, id: string): seq<Job> {
    Filter(js, OtherId(id))
  }

  /** What `ListJobs(false)` returns. */
  function EnabledJobs(js: seq<Job>): seq<Job> {
    Filter(js, IsEnabled())
  }

  /** The jobs a tick at `nowMs` executes, in store order. */
  function DueJobs(js: seq<Job>, nowMs: int): seq<Job> {
    Filter(js, DueAt(nowMs))
  }

  /** The ids of `js`, in order. */
  function IdsOf(js: seq<Job>): seq<string> {
    if js == [] then [] else IdsOf(js[..|js| - 1]) + [js[|js| - 1].id]
  }

  lemma IdsOfSnoc(js: seq<Job>, x: Job)
    ensures IdsOf(js + [x]) == IdsOf(js) + [x.id]
  {
    assert (js + [x])[..|js|] == js;
  }

  lemma {:induction false} IdsOfAt(js: seq<Job>)
    ensures |IdsOf(js)| == |js|
    ensures forall k :: 0 <= k < |js| ==> IdsOf(js)[k] == js[k].id
  {
    if js != [] {
      IdsOfAt(js[..|js| - 1]);
    }
  }

  /** Removal drops every job with the id, keeps every other, and shortens the list
      iff some job had the id. */
  lemma RemovedExactly(js: seq<Job>, id: string)
    ensures forall x :: x in WithoutId(js, id) <==> x in js && x.id != id
    ensures |WithoutId(js, id)| < |js| <==> exists i :: 0 <= i < |js| && js[i].id == id
  {
    FilterMembers(js, OtherId(id));
  }

  /** The listing of enabled jobs holds exactly the enabled ones. */
  lemma ListedExactly(js: seq<Job>)
    ensures forall x :: x in EnabledJobs(js) <==> x in js && x.enabled
  {
    FilterMembers(js, IsEnabled());
  }

  /** The due jobs are exactly the enabled ones whose next run is not after `nowMs`. */
  lemma DueExactly(js: seq<Job>, nowMs: int)
    ensures forall x :: x in DueJobs(js, nowMs) <==>
      x in js && x.enabled && x.state.nextRunAtMs.Some? && x.state.nextRunAtMs.value <= nowMs
  {
    FilterMembers(js, DueAt(nowMs));
  }

  // ---------------------------------------------------------------------------
  // Lookup by id

  /** The position of the first job with the id, as the scans of `EnableJob` find it. */
  function FindIndex(js: seq<Job>, id: string): (r: Option<nat>)
    ensures r.Some? ==> r.value < |js| && js[r.value].id == id
    ensures r.Some? ==> forall k :: 0 <= k < r.value ==> js[k].id != id
    ensures r.None? ==> forall k :: 0 <= k < |js| ==> js[k].id != id
  {
    if js == [] then None
    else if js[0].id == id then Some(0)
    else
      match FindIndex(js[1..], id)
      case None => None
      case Some(i) => Some(i + 1)
  }

  // ---------------------------------------------------------------------------
  // The job fields that the operations set

  /** A job as `AddJob` creates it, with `id` standing for a fresh identifier. */
  function NewJob(id: string, name: string, schedule: CronSchedule, message: string,
                  deliver: bool, channel: string, to: string, nowMs: int): Job {
    Job(id, name, true, schedule, Payload("agent_turn", message, deliver, channel, to),
        JobState(ComputeNextRun(schedule, nowMs), None, "", ""), nowMs, nowMs, false)
  }

  /** A new job is enabled, runs at the schedule's next run, and is not yet due. */
  lemma NewJobWaits(id: string, name: string, schedule: CronSchedule, message: string,
                    deliver: bool, channel: string, to: string, nowMs: int)
    ensures var j := NewJob(id, name, schedule, message, deliver, channel, to, nowMs);
      j.enabled && !j.deleteAfterRun && j.payload.kind == "agent_turn" &&
      j.state.nextRunAtMs == ComputeNextRun(schedule, nowMs) && !IsDue(j, nowMs)
  {
    NextRunIsLater(schedule, nowMs);
  }

  /** The job after `EnableJob(id, enabled)` at `nowMs`. */
  function SetEnabled(j: Job, enabled: bool, nowMs: int): Job {
    j.(enabled := enabled, updatedAtMs := nowMs,
       state := j.state.(nextRunAtMs := if enabled then ComputeNextRun(j.schedule, nowMs) else None))
  }

  /** Enabling schedules the job's next run, which is not yet due; disabling leaves it
      without one; and doing either twice at the same time is doing it once. */
  lemma EnableSchedules(j: Job, enabled: bool, nowMs: int)
    ensures SetEnabled(j, enabled, nowMs).enabled == enabled
    ensures enabled ==> SetEnabled(j, enabled, nowMs).state.nextRunAtMs == ComputeNextRun(j.schedule, nowMs)
    ensures !enabled ==> SetEnabled(j, enabled, nowMs).state.nextRunAtMs.None?
    ensures !IsDue(SetEnabled(j, enabled, nowMs), nowMs)
    ensures SetEnabled(SetEnabled(j, enabled, nowMs), enabled, nowMs) == SetEnabled(j, enabled, nowMs)
  {
    NextRunIsLater(j.schedule, nowMs);
  }

  /** The job after `recomputeNextRuns` at `nowMs`: enabled jobs get a fresh next run. */
  function Recompute(j: Job, nowMs: int): Job {
    if j.enabled then j.(state := j.state.(nextRunAtMs := ComputeNextRun(j.schedule, nowMs))) else j
  }

  function RecomputeAll(js: seq<Job>, nowMs: int): seq<Job> {
    seq(|js|, i requires 0 <= i < |js| => Recompute(js[i], nowMs))
  }

  /** After recomputation nothing is due at `nowMs`, and only the next runs of enabled jobs
      have changed. */
  lemma RecomputeLeavesNothingDue(js: seq<Job>, nowMs: int)
    ensures |RecomputeAll(js, nowMs)| == |js|
    ensures forall i :: 0 <= i < |js| ==> !IsDue(RecomputeAll(js, nowMs)[i], nowMs)
    ensures forall i :: 0 <= i < |js| ==>
      RecomputeAll(js, nowMs)[i].(state := js[i].state) == js[i] &&
      RecomputeAll(js, nowMs)[i].state.(nextRunAtMs := js[i].state.nextRunAtMs) == js[i].state
    ensures forall i :: 0 <= i < |js| && js[i].enabled ==>
      RecomputeAll(js, nowMs)[i].state.nextRunAtMs == ComputeNextRun(js[i].schedule, nowMs)
    ensures DueJobs(RecomputeAll(js, nowMs), nowMs) == []
  {
    var r := RecomputeAll(js, nowMs);
    forall i | 0 <= i < |js| ensures !IsDue(r[i], nowMs) {
      NextRunIsLater(js[i].schedule, nowMs);
    }
    FilterNone(r, DueAt(nowMs));
  }

  // ---------------------------------------------------------------------------
  // After a run

  /** The job after `executeJob` ran it, when the run does not delete it: the run is
      recorded, a one-shot job is switched off, any other job is rescheduled from the
      time the handler returned. */
  function AfterRun(j: Job, run: Run): Job {
    var recorded := j.state.(
      lastRunAtMs := Some(run.startMs),
      lastStatus := if run.error.Some? then "error" else "ok",
      lastError := if run.error.Some? then run.error.value else "");
    if j.schedule.kind == "at" then
      j.(updatedAtMs := run.endMs, enabled := false, state := recorded.(nextRunAtMs := None))
    else
      j.(updatedAtMs := run.endMs, state := recorded.(nextRunAtMs := ComputeNextRun(j.schedule, run.endMs)))
  }

  /** The update after a run: the run is recorded with its status, an `at` job is switched
      off, any other job keeps its enabled flag (even when the handler failed) and gets its
      next run from the schedule; either way the job is no longer due when the handler
      returned, and its identity, schedule and payload are untouched. */
  lemma AfterRunUpdates(j: Job, run: Run)
    ensures AfterRun(j, run).state.lastRunAtMs == Some(run.startMs)
    ensures run.error.Some? ==>
      AfterRun(j, run).state.lastStatus == "error" && AfterRun(j, run).state.lastError == run.error.value
    ensures run.error.None? ==>
      AfterRun(j, run).state.lastStatus == "ok" && AfterRun(j, run).state.lastError == ""
    ensures j.schedule.kind == "at" ==>
      !AfterRun(j, run).enabled && AfterRun(j, run).state.nextRunAtMs.None?
    ensures j.schedule.kind != "at" ==>
      AfterRun(j, run).enabled == j.enabled &&
      AfterRun(j, run).state.nextRunAtMs == ComputeNextRun(j.schedule, run.endMs)
    ensures !IsDue(AfterRun(j, run), run.endMs)
    ensures AfterRun(j, run).id == j.id && AfterRun(j, run).schedule == j.schedule
    ensures AfterRun(j, run).payload == j.payload && AfterRun(j, run).deleteAfterRun == j.deleteAfterRun
  {
    NextRunIsLater(j.schedule, run.endMs);
  }

  /** `executeJob` for the job with the id, whose handler gives `outcome(job)`: a one-shot
      job marked for deletion is removed from the store, any other is updated in place. */
  function ExecuteById(js: seq<Job>, id: string, outcome: Job -> Run): seq<Job> {
    match FindIndex(js, id)
    case None => js
    case Some(i) =>
      if js[i].schedule.kind == "at" && js[i].deleteAfterRun then WithoutId(js, id)
      else js[i := AfterRun(js[i], outcome(js[i]))]
  }

  /** A tick that executes the jobs with the ids `ids`, in that order, each located in the
      store as it stands when its turn comes. */
  function RunDue(js: seq<Job>, ids: seq<string>, outcome: Job -> Run): seq<Job> {
    if ids == [] then js
    else ExecuteById(RunDue(js, ids[..|ids| - 1], outcome), ids[|ids| - 1], outcome)
  }

  /** Executing one job: an unknown id changes nothing; a one-shot job marked for deletion
      disappears from the store; any other job is replaced at its position by its update
      after the run. Every job with another id stays, the ids stay unique, and no job with
      the id is still due once the handler has returned. */
  lemma ExecuteByIdUpdatesOne(js: seq<Job>, id: string, outcome: Job -> Run, nowMs: int)
    requires UniqueIds(js)
    requires forall j :: outcome(j).endMs >= nowMs
    ensures FindIndex(js, id).None? ==> ExecuteById(js, id, outcome) == js
    ensures FindIndex(js, id).Some? ==>
      var i := FindIndex(js, id).value;
      js[i].schedule.kind == "at" && js[i].deleteAfterRun ==>
        forall x :: x in ExecuteById(js, id, outcome) ==> x.id != id
    ensures FindIndex(js, id).Some? ==>
      var i := FindIndex(js, id).value;
      !(js[i].schedule.kind == "at" && js[i].deleteAfterRun) ==>
        |ExecuteById(js, id, outcome)| == |js| &&
        ExecuteById(js, id, outcome)[i] == AfterRun(js[i], outcome(js[i])) &&
        forall k :: 0 <= k < |js| && k != i ==> ExecuteById(js, id, outcome)[k] == js[k]
    ensures UniqueIds(ExecuteById(js, id, outcome))
    ensures forall x :: x in js && x.id != id ==> x in ExecuteById(js, id, outcome)
    ensures forall x :: x in ExecuteById(js, id, outcome) && x.id != id ==> x in js
    ensures forall x :: x in ExecuteById(js, id, outcome) && x.id == id ==> !IsDue(x, nowMs)
  {
    match FindIndex(js, id)
    case None =>
    case Some(i) =>
      if js[i].schedule.kind == "at" && js[i].deleteAfterRun {
        FilterKeepsUniqueIds(js, OtherId(id));
        RemovedExactly(js, id);
      } else {
        AfterRunUpdates(js[i], outcome(js[i]));
        ReplaceOne(js, i, AfterRun(js[i], outcome(js[i])), nowMs);
      }
  }

  /** Replacing the job at `i` by one with the same id that is not due keeps the ids
      unique and leaves every other job as it was. */
  lemma ReplaceOne(js: seq<Job>, i: nat, j: Job, nowMs: int)
    requires UniqueIds(js) && i < |js| && j.id == js[i].id && !IsDue(j, nowMs)
    ensures UniqueIds(js[i := j])
    ensures forall x :: x in js[i := j] && x.id != j.id ==> x in js
    ensures forall x :: x in js && x.id != j.id ==> x in js[i := j]
    ensures forall x :: x in js[i := j] && x.id == j.id ==> !IsDue(x, nowMs)
  {
    var r := js[i := j];
    forall x | x in r
      ensures x.id != j.id ==> x in js
      ensures x.id == j.id ==> x == j
    {
      var k :| 0 <= k < |r| && r[k] == x;
      if k != i {
        assert r[k] == js[k];
      }
    }
    forall x | x in js && x.id != j.id ensures x in r {
      var k :| 0 <= k < |js| && js[k] == x;
      assert k != i && r[k] == x;
    }
  }

  /** No job that a tick executed is still due after it: each was removed, switched off
      or rescheduled after the tick's time. */
  lemma {:induction false} RanJobsNotDue(js: seq<Job>, ids: seq<string>, outcome: Job -> Run, nowMs: int)
    requires UniqueIds(js)
    requires forall j :: outcome(j).endMs >= nowMs
    ensures UniqueIds(RunDue(js, ids, outcome))
    ensures forall x :: x in RunDue(js, ids, outcome) && x.id in ids ==> !IsDue(x, nowMs)
    ensures forall x :: x in js && x.id !in ids ==> x in RunDue(js, ids, outcome)
    ensures forall x :: x in RunDue(js, ids, outcome) && x.id !in ids ==> x in js
    decreases |ids|
  {
    if ids != [] {
      var init := ids[..|ids| - 1];
      var id := ids[|ids| - 1];
      var before := RunDue(js, init, outcome);
      RanJobsNotDue(js, init, outcome, nowMs);
      ExecuteByIdUpdatesOne(before, id, outcome, nowMs);
      assert ids == init + [id];
      forall x | x in RunDue(js, ids, outcome) && x.id in ids ensures !IsDue(x, nowMs) {
        if x.id != id {
          assert x in before && x.id in init;
        }
      }
      forall x | x in js && x.id !in ids ensures x in RunDue(js, ids, outcome) {
        assert x.id !in init && x.id != id;
      }
      forall x | x in RunDue(js, ids, outcome) && x.id !in ids ensures x in js {
        assert x.id !in init && x.id != id && x in before;
      }
    }
  }

  // ---------------------------------------------------------------------------
  // The store invariant: a disabled job has no next run

  /** A disabled job has no next run. */
  predicate OffUnscheduled(j: Job) {
    j.enabled || j.state.nextRunAtMs.None?
  }

  /** No disabled job in the store has a next run. */
  predicate DisabledUnscheduled(js: seq<Job>) {
    forall x :: x in js ==> OffUnscheduled(x)
  }

  /** `AddJob` appends a new job, which is enabled, so the invariant is kept. */
  lemma AddKeepsInvariant(js: seq<Job>, id: string, name: string, schedule: CronSchedule, message: string,
                          deliver: bool, channel: string, to: string, nowMs: int)
    requires DisabledUnscheduled(js)
    ensures DisabledUnscheduled(js + [NewJob(id, name, schedule, message, deliver, channel, to, nowMs)])
  {
    var n := NewJob(id, name, schedule, message, deliver, channel, to, nowMs);
    forall x | x in js + [n] ensures OffUnscheduled(x) {
      assert x in js || x == n;
    }
  }

  /** `EnableJob` clears the next run of a job it disables, so the invariant is kept. */
  lemma EnableKeepsInvariant(js: seq<Job>, i: nat, enabled: bool, nowMs: int)
    requires i < |js| && DisabledUnscheduled(js)
    ensures DisabledUnscheduled(js[i := SetEnabled(js[i], enabled, nowMs)])
  {
    var r := js[i := SetEnabled(js[i], enabled, nowMs)];
    forall x | x in r ensures OffUnscheduled(x) {
      var k :| 0 <= k < |r| && r[k] == x;
      if k == i {
        EnableSchedules(js[i], enabled, nowMs);
      } else {
        assert x == js[k];
      }
    }
  }

  /** Removal keeps only jobs of the store, so the invariant is kept. */
  lemma RemoveKeepsInvariant(js: seq<Job>, id: string)
    requires DisabledUnscheduled(js)
    ensures DisabledUnscheduled(WithoutId(js, id))
  {
    RemovedExactly(js, id);
  }

  /** Recomputation touches only enabled jobs, so the invariant is kept. */
  lemma RecomputeKeepsInvariant(js: seq<Job>, nowMs: int)
    requires DisabledUnscheduled(js)
    ensures DisabledUnscheduled(RecomputeAll(js, nowMs))
  {
    var r := RecomputeAll(js, nowMs);
    forall x | x in r ensures OffUnscheduled(x) {
      var k :| 0 <= k < |r| && r[k] == x;
      assert js[k] in js;
    }
  }

  /** Every job of the store whose id is in `live` is enabled or a one-shot job: running
      such a job never gives a disabled job a next run. */
  predicate EnabledOrOneShot(js: seq<Job>, live: set<string>) {
    forall x :: x in js && x.id in live ==> x.enabled || x.schedule.kind == "at"
  }

  /** Executing a job keeps the ids distinct. */
  lemma ExecuteKeepsUniqueIds(js: seq<Job>, id: string, outcome: Job -> Run)
    requires UniqueIds(js)
    ensures UniqueIds(ExecuteById(js, id, outcome))
  {
    match FindIndex(js, id)
    case None =>
    case Some(i) =>
      if js[i].schedule.kind == "at" && js[i].deleteAfterRun {
        FilterKeepsUniqueIds(js, OtherId(id));
      } else {
        var r := ExecuteById(js, id, outcome);
        assert forall k :: 0 <= k < |r| ==> r[k].id == js[k].id;
      }
  }

  /** Executing a job whose id is in `live` keeps the invariant, and keeps every job with
      an id in `live` enabled or one-shot: an `at` job is switched off with no next run,
      any other keeps its enabled flag. */
  lemma ExecuteKeepsInvariant(js: seq<Job>, id: string, outcome: Job -> Run, live: set<string>)
    requires UniqueIds(js) && DisabledUnscheduled(js) && EnabledOrOneShot(js, live) && id in live
    ensures DisabledUnscheduled(ExecuteById(js, id, outcome))
    ensures EnabledOrOneShot(ExecuteById(js, id, outcome), live)
  {
    match FindIndex(js, id)
    case None =>
    case Some(i) =>
      if js[i].schedule.kind == "at" && js[i].deleteAfterRun {
        RemovedExactly(js, id);
      } else {
        var r := ExecuteById(js, id, outcome);
        assert js[i] in js;
        forall x | x in r
          ensures OffUnscheduled(x) && (x.id in live ==> x.enabled || x.schedule.kind == "at")
        {
          var k :| 0 <= k < |r| && r[k] == x;
          if k != i {
            assert x == js[k];
          }
        }
      }
  }

  /** A sequence of executions of jobs whose ids are in `live` keeps the invariant. */
  lemma {:induction false} RunDueKeepsInvariant(js: seq<Job>, ids: seq<string>, outcome: Job -> Run, live: set<string>)
    requires UniqueIds(js) && DisabledUnscheduled(js) && EnabledOrOneShot(js, live)
    requires forall k :: 0 <= k < |ids| ==> ids[k] in live
    ensures UniqueIds(RunDue(js, ids, outcome))
    ensures DisabledUnscheduled(RunDue(js, ids, outcome))
    ensures EnabledOrOneShot(RunDue(js, ids, outcome), live)
    decreases |ids|
  {
    if ids != [] {
      var init := ids[..|ids| - 1];
      RunDueKeepsInvariant(js, init, outcome, live);
      var before := RunDue(js, init, outcome);
      ExecuteKeepsUniqueIds(before, ids[|ids| - 1], outcome);
      ExecuteKeepsInvariant(before, ids[|ids| - 1], outcome, live);
    }
  }

  /** A tick that executes the due jobs keeps the invariant when the ids are distinct: each
      executed job is the due, hence enabled, job with that id. */
  lemma TickKeepsInvariant(js: seq<Job>, nowMs: int, outcome: Job -> Run)
    requires UniqueIds(js) && DisabledUnscheduled(js)
    ensures DisabledUnscheduled(RunDue(js, IdsOf(DueJobs(js, nowMs)), outcome))
  {
    var due := DueJobs(js, nowMs);
    var ids := IdsOf(due);
    var live := set x | x in due :: x.id;
    DueExactly(js, nowMs);
    IdsOfAt(due);
    forall x | x in js && x.id in live ensures x.enabled {
      var d :| d in due && d.id == x.id;
      var a :| 0 <= a < |js| && js[a] == x;
      var b :| 0 <= b < |js| && js[b] == d;
      assert a == b;
    }
    forall k | 0 <= k < |ids| ensures ids[k] in live {
      assert due[k] in due;
    }
    RunDueKeepsInvariant(js, ids, outcome, live);
  }

  // ---------------------------------------------------------------------------
  // The earliest wake-up time

  /** The wake-up time after looking at one more job: its next run if it is enabled and
      runs strictly earlier than `wake` (or `wake` is unset). */
  function EarlierWake(wake: Option<int>, j: Job): Option<int> {
    if Scheduled(j) && (wake.None? || j.state.nextRunAtMs.value < wake.value)
    then j.state.nextRunAtMs else wake
  }

  /** `getNextWakeMS`: the jobs looked at in order. */
  function NextWake(js: seq<Job>): Option<int> {
    if js == [] then None else EarlierWake(NextWake(js[..|js| - 1]), js[|js| - 1])
  }

  /** The wake-up time is the least next run of the enabled jobs, and there is none iff
      no enabled job has a next run. */
  lemma {:induction false} NextWakeIsMinimum(js: seq<Job>)
    ensures NextWake(js).Some? ==>
      exists i :: 0 <= i < |js| && Scheduled(js[i]) && js[i].state.nextRunAtMs == NextWake(js)
    ensures NextWake(js).Some? ==>
      forall i :: 0 <= i < |js| && Scheduled(js[i]) ==> NextWake(js).value <= js[i].state.nextRunAtMs.value
    ensures NextWake(js).None? <==> forall i :: 0 <= i < |js| ==> !Scheduled(js[i])
  {
    if js != [] {
      var init := js[..|js| - 1];
      NextWakeIsMinimum(init);
      assert forall i :: 0 <= i < |init| ==> js[i] == init[i];
      if NextWake(js).Some? && NextWake(js) == NextWake(init) {
        var i :| 0 <= i < |init| && Scheduled(init[i]) && init[i].state.nextRunAtMs == NextWake(init);
        assert js[i] == init[i];
      }
    }
  }

  /** A tick at `nowMs` has something to run iff the wake-up time has come. */
  lemma DueIffWakeReached(js: seq<Job>, nowMs: int)
    ensures DueJobs(js, nowMs) != [] <==> NextWake(js).Some? && NextWake(js).value <= nowMs
  {
    NextWakeIsMinimum(js);
    DueExactly(js, nowMs);
    if DueJobs(js, nowMs) != [] {
      var x := DueJobs(js, nowMs)[0];
      assert x in js;
    }
    if NextWake(js).Some? && NextWake(js).value <= nowMs {
      var i :| 0 <= i < |js| && Scheduled(js[i]) && js[i].state.nextRunAtMs == NextWake(js);
      assert js[i] in DueJobs(js, nowMs);
    }
  }
}
