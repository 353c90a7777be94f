# Cron scheduler model

This project models, in Dafny, the scheduling engine of the cron service in
`pkg/cron/service.go`: an in-process scheduler that keeps an ordered list of jobs and runs
each job's handler when the job becomes due. There are three kinds of job:

- `at` runs once, at a fixed millisecond timestamp.
- `every` runs at a fixed period.
- `cron` runs on a five-field cron expression.

After each run the job is rescheduled, switched off or deleted.

The model follows the source's own structure:

- **Cron field parsing** (`parseCronField`), module `CronField`:
  - A field is a comma list of `*`, `*/N`, `N` and `lo-hi` parts.
  - `ParseCronField` is the loop that fills a set. It is proved equal to the specification function `FieldValues`, which gives the union of the parts' values.
  - A field is invalid (`None`) when any part is malformed or the union is empty.
  - The Go string and number helpers it relies on are in `GoStrings`:
    - `strings.Fields`, `Split`, `TrimSpace`, `HasPrefix`, `SplitN`
    - `strconv.Atoi`
- **Next-occurrence search** (`nextCronTime`), module `CronSearch`, on the UTC proleptic Gregorian calendar of `Calendar`:
  - `FirstFiring` is the reference definition. It tries every whole minute from the minute after `after` up to the 366-day horizon.
  - `NextCronTime` is the loop as written, with its month, day and hour skips. It is proved to return exactly what the reference search returns.
  - Day of month and day of week must both match.
- **Next-run evaluation** (`computeNextRun`), module `Schedule`.
- **Job store**:
  - Module `Jobs` holds the value-level specification of each store operation: filtering, lookup by id, the update after a run, recomputation, the wake-up time and the due set.
  - `Jobs.DisabledUnscheduled` is the store invariant that no disabled job has a next run. Adding, enabling or disabling, removing, recomputing and a tick over distinct ids each keep it.
  - Class `Service.CronService` holds the job list and the `running` flag. Its methods change them in place, as the Go methods do, and each method is proved against the `Jobs` functions.

The clock, the handler's outcome, the store file's contents and the results of writing it
are parameters of the operations:

- `nowMs` is the current time in milliseconds.
- `outcome(job)` is the handler's run: its start and end times and its error message, if any.
- `load` / `reloaded` are the jobs read from the store file.
- `saveErr` is the error of writing the store file, if any.

Times are unbounded integers of milliseconds since the Unix epoch, and cron expressions are
read in UTC.

Two facts about writing the store shape the model:

- `executeJob` never calls `saveStore` after updating a job. The store is written only when the job is deleted, through `removeJobUnsafe`.
- `RemoveJob` and `EnableJob` discard the error `saveStore` returns.

## Model

| member | source | states |
|---|---|---|
| `GoStrings.Fields` | pkg/cron/service.go:239 | every word `strings.Fields` returns is non-empty and has no white space |
| `GoStrings.FieldsAfterSpaces` | pkg/cron/service.go:239 | white space in front of an expression, however much, changes none of its fields |
| `GoStrings.FieldsOfSpaced` | pkg/cron/service.go:239 | `Fields` gives back exactly the words of any string made of non-empty words separated by white space of any length, with any white space before and after |
| `GoStrings.SpacedOfFields` | pkg/cron/service.go:239 | every string is its fields with white space before, between (at least one character) and after them, so `Fields` drops only white space and keeps the words in order |
| `GoStrings.Split` | pkg/cron/service.go:296 | at least one part, none containing the separator, and joining the parts gives the input back |
| `GoStrings.TrimSpace` | pkg/cron/service.go:297 | the result neither starts nor ends with white space |
| `GoStrings.TrimSpaceSlice` | pkg/cron/service.go:297 | the trimmed part is the slice of the input that starts after its leading white space, and everything after it is white space |
| `GoStrings.IndexOf` | pkg/cron/service.go:321 | the position of the first `-`: `SplitN(part, "-", 2)` splits there |
| `GoStrings.IndexOfAt` | pkg/cron/service.go:321 | a position holding the first `-` is the one `IndexOf` returns |
| `GoStrings.Atoi` | pkg/cron/service.go:301 | a parsed number fits in int64 |
| `GoStrings.AtoiValue` | pkg/cron/service.go:301 | `Atoi` returns a number exactly when the text after an optional sign is one or more digits whose signed value fits in int64, and the number is that signed value |
| `GoStrings.AtoiRejectsChar` | pkg/cron/service.go:301 | a character other than a digit or a sign anywhere in the text makes `Atoi` fail |
| `GoStrings.AtoiOfDecimal` | pkg/cron/service.go:334 | `Atoi` reads back every int64 written in decimal, including negative ones |
| `CronField.PartValues` | pkg/cron/service.go:296-338 | one trimmed part: `*/N` gives the steps from the field's minimum and rejects a step that is not a positive number; `*` gives the whole range; text with a `-` is split at the first `-` and gives the unclamped range, rejected when either bound is not a number or the bounds are reversed; anything else must be a number and gives itself |
| `CronField.FieldValues` | pkg/cron/service.go:293-345 | a field: the union of its comma-separated parts' values, rejected when any part is or the union is empty |
| `CronField.ParseCronField` | pkg/cron/service.go:293-345 | the parsing loop returns exactly `FieldValues(field, lo, hi)`: the union of the parts, or none if any part is malformed or the union is empty |
| `CronField.AddPart` | pkg/cron/service.go:296-338 | one round of the loop adds the part's values, or rejects the whole field when the part is malformed |
| `CronField.AddSteps` | pkg/cron/service.go:305-307 | the `*/N` loop adds exactly `lo, lo+N, …` up to `hi` |
| `CronField.AddRange` | pkg/cron/service.go:313-315 | the `*` and `lo-hi` loops add exactly the integers in the range |
| `CronField.RangeMembers` | pkg/cron/service.go:327-329 | `x` is in `Range(lo, hi)` iff `lo <= x <= hi` |
| `CronField.StepsMembers` | pkg/cron/service.go:305-307 | `x` is visited by the step loop iff it is in range and a whole number of steps from the start |
| `CronField.UnionDefined` | pkg/cron/service.go:302-303 | the union of the parts is defined iff every part is well formed |
| `CronField.UnionMembers` | pkg/cron/service.go:296-339 | a value is in the union iff some part allows it |
| `CronField.FieldDefined` | pkg/cron/service.go:296-343 | a field is valid iff every comma-separated part is, so one bad part invalidates a list, and with `lo <= hi` the empty-result check never fires |
| `CronField.FieldMembers` | pkg/cron/service.go:296-344 | a valid field allows exactly the values some part allows |
| `CronField.UnionNoneExtends` | pkg/cron/service.go:302-303 | once a part is malformed, no later part can make the field valid |
| `CronField.OnePartField` | pkg/cron/service.go:341-343 | a field without commas is its single part, rejected if that part allows nothing |
| `CronField.DoubleRangeRejected` | pkg/cron/service.go:320-325 | every part `a-b-c` of digit strings, `a` and `b` non-empty, is rejected: only the first `-` splits, and `b-c` is not a number |
| `CronField.RangePart` | pkg/cron/service.go:320-330 | the part `a-b` for any int64 values `a, b >= 0` allows exactly `a..b`, not clamped to the field's bounds, and is rejected when `a > b` |
| `CronField.RangeField` | pkg/cron/service.go:320-345 | the field `a-b` is valid iff `a <= b`, and then allows exactly the `x` with `a <= x <= b` |
| `CronField.ReversedRangeRejected` | pkg/cron/service.go:320-325 | every range whose low bound exceeds its high bound is rejected |
| `CronField.ZeroStepRejected` | pkg/cron/service.go:300-304 | a step of zero (`*/0`) is rejected |
| `CronField.NonNumericStepRejected` | pkg/cron/service.go:300-304 | a step part `*/d` whose `d` has no white space and is not a number, or is a number not above zero, is rejected |
| `CronField.NegativeStepRejected` | pkg/cron/service.go:300-304 | every negative step `*/-N` is rejected |
| `CronField.StrayCharacterRejected` | pkg/cron/service.go:297-336 | a part holding any character that is not white space, a digit, a sign, `*` or `/` is rejected by every branch |
| `CronField.SingleValueUnclamped` | pkg/cron/service.go:333-338 | a single value is taken as written: `70` in the minute field is accepted as `{70}` |
| `CronField.NumberPart` | pkg/cron/service.go:333-338 | a part of digits alone allows just its own value |
| `CronField.StepPart` | pkg/cron/service.go:300-308 | the part `*/N` with `N > 0` allows `lo, lo+N, …` up to `hi` |
| `CronField.StarPart` | pkg/cron/service.go:312-316 | the part `*` allows `lo..hi` |
| `CronField.StepField` | pkg/cron/service.go:300-308 | the field `*/N` with `N > 0` is valid and allows exactly the `x` in `lo..hi` with `x - lo` divisible by `N` |
| `CronField.StarField` | pkg/cron/service.go:312-316 | the field `*` is valid and allows exactly `lo..hi` |
| `CronField.PartWitness` | pkg/cron/service.go:341-343 | every well-formed part allows some value once `lo <= hi` |
| `CronField.UnionOfPartsNonEmpty` | pkg/cron/service.go:341-343 | a defined union of at least one part is never empty when `lo <= hi` |
| `Calendar.CivilFromDaysValid` | pkg/cron/service.go:260-264 | the date of a day number is valid, and converting it back gives the same day number |
| `Calendar.CivilOfDays` | pkg/cron/service.go:260-264 | every valid date is the date of its own day number |
| `Calendar.DaysFromValidCivil` | pkg/cron/service.go:271-281 | `time.Date` of a valid month counts the days before the year and the month |
| `Calendar.NextMonthStart` | pkg/cron/service.go:271 | `time.Date(y, m+1, 1)` is the day after the last day of month `m`, including December going to January of the next year |
| `Calendar.DateTimeOfParts` | pkg/cron/service.go:271-285 | splitting a minute into date, hour and minute and rebuilding it with `time.Date` is the identity |
| `Calendar.MinuteSplit` | pkg/cron/service.go:260-264 | a minute number is its day times 1440 plus its hour times 60 plus its minute |
| `Calendar.Weekday` | pkg/cron/service.go:262 | the weekday is in `0..6` |
| `Calendar.FirstOf2000IsSaturday` | pkg/cron/service.go:262 | the weekday of 1 January 2000 is Saturday (6), so weekdays line up with the real calendar |
| `Calendar.WeekdayNextDay` | pkg/cron/service.go:262 | one day later the weekday is the next one, Saturday being followed by Sunday |
| `Calendar.HourOf` | pkg/cron/service.go:263 | the hour is in `0..23` |
| `Calendar.MinuteOf` | pkg/cron/service.go:264 | the minute is in `0..59` |
| `Calendar.YearOfBounds` | pkg/cron/service.go:260-261 | the year found for a day number contains that day |
| `Calendar.YearOfUnique` | pkg/cron/service.go:260-261 | the only year containing a day is the one found for it |
| `Calendar.MonthFromBounds` | pkg/cron/service.go:260-261 | the month found for a day of the year contains it |
| `Calendar.DaysBeforeYearClosedForm` | pkg/cron/service.go:260-261 | the recursive day count equals 365 days a year plus one per Gregorian leap year |
| `CronSearch.InvalidExprNeverFires` | pkg/cron/service.go:239-252 | an expression without exactly five fields, or with any invalid field, gives none |
| `CronSearch.FirstFiringSound` | pkg/cron/service.go:259-288 | the reference search returns a firing minute within bounds with none before it, and returns none only when no minute in range fires |
| `CronSearch.StartMinuteBounds` | pkg/cron/service.go:255 | the search starts at the first whole minute strictly after `after` |
| `CronSearch.NextFiringSound` | pkg/cron/service.go:255-265 | a returned time is strictly after `after`, before `after` plus 366 days, a whole minute, and a firing minute |
| `CronSearch.CronNextMatches` | pkg/cron/service.go:260-265 | at a returned time, minute, hour, month, day of month and weekday are all allowed |
| `CronSearch.CronNextEarliest` | pkg/cron/service.go:259-288 | no minute between `after` and the returned time matches; with no result, no minute within the horizon matches |
| `CronSearch.NextFiringEarliest` | pkg/cron/service.go:255-288 | no minute after `after` and before the result, or before the horizon when there is none, fires |
| `CronSearch.FirstFiringEarliest` | pkg/cron/service.go:259-266 | no minute between the start and the returned one fires |
| `CronSearch.SkipPreserves` | pkg/cron/service.go:268-285 | skipping minutes at none of which the expression fires does not change the first firing |
| `CronSearch.MonthSkip` | pkg/cron/service.go:269-273 | when the month is not allowed, no minute up to the first of the next month matches |
| `CronSearch.DaySkip` | pkg/cron/service.go:274-278 | when the day of month or the weekday is not allowed, no minute up to the next midnight matches |
| `CronSearch.HourSkip` | pkg/cron/service.go:279-283 | when the hour is not allowed, no minute up to the next hour matches |
| `CronSearch.JumpPreserves` | pkg/cron/service.go:268-285 | each skip moves strictly forward and leaves the first firing unchanged |
| `CronSearch.FiresHere` | pkg/cron/service.go:260-266 | a matching minute inside the horizon is the first firing from itself |
| `CronSearch.CronNext` | pkg/cron/service.go:238-289 | `nextCronTime`: none for an invalid expression, otherwise the first firing minute after `after` within 366 days |
| `CronSearch.NextCronTime` | pkg/cron/service.go:238-289 | `nextCronTime` returns exactly what the minute-by-minute reference search returns |
| `CronSearch.SearchFrom` | pkg/cron/service.go:254-288 | the skipping loop returns the first firing minute after `after` within the horizon, or none |
| `CronSearch.Step` | pkg/cron/service.go:260-285 | one round either finds a match or moves `t` strictly forward without passing a firing minute |
| `Schedule.ComputeNextRun` | pkg/cron/service.go:200-233 | `computeNextRun`: an `at` time still ahead, now plus a positive period, the next cron firing after now, or none |
| `Schedule.NextRunIsLater` | pkg/cron/service.go:200-233 | a computed next run is always strictly later than now |
| `Schedule.NextRunByKind` | pkg/cron/service.go:200-233 | `at` gives its time iff it is present and still ahead; `every` gives now plus the period iff the period is present and positive; `cron` gives a whole minute within the horizon at which every field matches, and none for an invalid expression; any other kind gives none |
| `Schedule.CronRunIsEarliest` | pkg/cron/service.go:217-229 | a cron schedule skips no matching minute between now and its next run |
| `Jobs.FilterMembers` | pkg/cron/service.go:457-462 | filtering keeps exactly the jobs that pass, and shortens the list iff some job fails |
| `Jobs.FilterAppend` | pkg/cron/service.go:457-462 | filtering keeps the kept jobs in their original order |
| `Jobs.FilterKeepsUniqueIds` | pkg/cron/service.go:457-462 | filtering a list with distinct ids leaves distinct ids |
| `Jobs.RemovedExactly` | pkg/cron/service.go:455-471 | removal drops every job with the id, keeps every other job, and shrinks the list iff some job had the id |
| `Jobs.ListedExactly` | pkg/cron/service.go:505-512 | listing without disabled jobs returns exactly the enabled ones |
| `Jobs.DueExactly` | pkg/cron/service.go:152-157 | the due set is exactly the enabled jobs with a next run not after now |
| `Jobs.FindIndex` | pkg/cron/service.go:477-479 | the first position holding the id, or none when no job has it |
| `Jobs.NewJobWaits` | pkg/cron/service.go:418-440 | a new job is enabled, not deleted after a run, carries an `agent_turn` payload, runs at its schedule's next run, and is not yet due |
| `Jobs.SetEnabled` | pkg/cron/service.go:480-487 | the job after `EnableJob`: the flag and update time set, and a next run computed from now when enabling or cleared when disabling |
| `Jobs.EnableSchedules` | pkg/cron/service.go:477-487 | enabling gives the next run computed from now, which is not yet due; disabling clears the next run; and repeating the call at the same time changes nothing |
| `Jobs.RecomputeAll` | pkg/cron/service.go:347-355 | `recomputeNextRuns`: each enabled job gets a next run computed from now, and the others are kept |
| `Jobs.RecomputeLeavesNothingDue` | pkg/cron/service.go:347-355 | recomputation changes only the next runs of enabled jobs, and leaves nothing due at now |
| `Jobs.AfterRun` | pkg/cron/service.go:176-197 | the job after `executeJob` ran it without deleting it: start time, end time, status and error recorded; an `at` job switched off; any other rescheduled from the handler's return |
| `Jobs.AfterRunUpdates` | pkg/cron/service.go:176-197 | the run's start is recorded, status `error` with the message or `ok` with an empty error; an `at` job is switched off and has no next run; any other job keeps its enabled flag even after a failure and is rescheduled from the handler's return; the job is not due at that time, and its id, schedule, payload and delete flag are kept |
| `Jobs.ExecuteById` | pkg/cron/service.go:165-198 | `executeJob` on the first job with the id: a one-shot job marked for deletion is removed from the store, any other is replaced by its update after the run; an unknown id changes nothing |
| `Jobs.ExecuteByIdUpdatesOne` | pkg/cron/service.go:165-198 | with distinct ids: an unknown id changes nothing; a one-shot job marked for deletion leaves no job with its id; any other job is replaced at its own position by `AfterRun` of it, all other positions unchanged; every job with another id is kept and no other job appears; ids stay distinct; no job with the id is due when the handler returned |
| `Jobs.RanJobsNotDue` | pkg/cron/service.go:149-162 | with distinct ids, after a tick no job it executed is still due, every job it did not execute is kept, and no other job appears |
| `Jobs.NextWakeIsMinimum` | pkg/cron/service.go:357-367 | the wake-up time is the least next run among enabled jobs, and there is none iff no enabled job has one |
| `Jobs.DueIffWakeReached` | pkg/cron/service.go:149-157 | a tick has something to run iff the wake-up time has come |
| `Jobs.AddKeepsInvariant` | pkg/cron/service.go:414-446 | appending a new job keeps the store invariant that no disabled job has a next run |
| `Jobs.EnableKeepsInvariant` | pkg/cron/service.go:473-495 | enabling or disabling a job keeps the store invariant |
| `Jobs.RemoveKeepsInvariant` | pkg/cron/service.go:455-471 | removing jobs by id keeps the store invariant |
| `Jobs.RecomputeKeepsInvariant` | pkg/cron/service.go:347-355 | recomputing next runs, which touches only enabled jobs, keeps the store invariant |
| `Jobs.ExecuteKeepsUniqueIds` | pkg/cron/service.go:165-198 | executing a job keeps the store's ids distinct |
| `Jobs.ExecuteKeepsInvariant` | pkg/cron/service.go:165-198 | executing an enabled or one-shot job keeps the store invariant: an `at` job is switched off with no next run, any other keeps its enabled flag |
| `Jobs.RunDueKeepsInvariant` | pkg/cron/service.go:159-162 | executing, one after another, jobs that are each enabled or one-shot keeps the store invariant and distinct ids |
| `Jobs.TickKeepsInvariant` | pkg/cron/service.go:149-162 | with distinct ids, a tick that executes the due jobs keeps the store invariant |
| `Jobs.NextWake` | pkg/cron/service.go:357-367 | `getNextWakeMS`: the scan keeps the next run of an enabled job when it is strictly earlier than the best so far |
| `Service.CronService.constructor` | pkg/cron/service.go:66-75 | a new service holds the jobs loaded from the file, or none after a load error, and is not running |
| `Service.CronService.Start` | pkg/cron/service.go:77-103 | starting a running service changes nothing; otherwise it reloads and recomputes, reports `failed to load store: …` or `failed to save store: …` and stays stopped on failure, and runs only after both succeed |
| `Service.CronService.Stop` | pkg/cron/service.go:105-115 | after stopping, the service is not running, whether or not it was before |
| `Service.CronService.RecomputeNextRuns` | pkg/cron/service.go:347-355 | every enabled job gets its next run from now, and the rest of the store is unchanged |
| `Service.CronService.Find` | pkg/cron/service.go:477-479 | the scan finds the first job with the id, or reports none |
| `Service.CronService.RemoveJobUnsafe` | pkg/cron/service.go:455-471 | the store becomes the list without the id, in order, and the result is true iff some job had the id |
| `Service.CronService.RemoveJob` | pkg/cron/service.go:448-453 | removal by id through the lock-taking entry point |
| `Service.CronService.EnableJob` | pkg/cron/service.go:473-495 | the first job with the id is switched on or off and returned; an unknown id changes nothing and gives none |
| `Service.CronService.AddJob` | pkg/cron/service.go:414-446 | the new job is appended even if saving fails, the save error is returned instead of the job, and ids stay distinct |
| `Service.CronService.ListJobs` | pkg/cron/service.go:497-513 | returns all jobs, or exactly the enabled ones in store order |
| `Service.CronService.NextWakeMs` | pkg/cron/service.go:357-367 | returns the least next run of an enabled job, or none iff no enabled job has one |
| `Service.CronService.CollectDue` | pkg/cron/service.go:149-157 | returns the ids of the enabled jobs whose next run is not after now, in store order |
| `Service.CronService.ExecuteJob` | pkg/cron/service.go:165-198 | the store becomes `ExecuteById` of the old store: the deleted one-shot job gone, or the job replaced in place by its update after the run, everything else kept (`Jobs.ExecuteByIdUpdatesOne`) |
| `Service.CronService.CheckJobs` | pkg/cron/service.go:132-163 | a stopped service does nothing; otherwise the store is reloaded if the file changed and the due jobs are executed in order by id; when the store's ids are distinct, afterwards none of them is still due, every job not executed is kept, and no other job appears |
| `LostUpdate.DuePositions` | pkg/cron/service.go:152-157 | the pointers a tick collects point, in increasing order, at exactly the due jobs |
| `LostUpdate.ExecuteAsWritten` | pkg/cron/service.go:149-198 | the tick as written: each update goes into the slice the pointers were collected from, and a removal installs a new store slice that later updates do not reach |
| `LostUpdate.AsWrittenRunsAgain` | pkg/cron/service.go:160-162 | as written, in a tick with two due one-shot jobs where the first is deleted, the second runs but stays enabled and due |
| `LostUpdate.ByIdSwitchesOff` | pkg/cron/service.go:186-192 | applying the same tick's updates by id switches the second job off |

## Left out

- Reading and writing the store file (JSON encoding, `os.ReadFile`, `os.WriteFile`, `os.MkdirAll`) are not modelled. Their results are inputs: the jobs loaded, or the error and the save error.
- A JSON decoding error part way through a file can leave some jobs in the store. The model treats every load error as leaving the store empty.
- Detecting that the store file changed on disk (`os.Stat` size and modification time, lines 95-98 and 140-147) is an input of `CheckJobs`: the reloaded jobs, or none when the file did not change.
- Concurrency is not modelled: the `runLoop` goroutine, its ticker and `stopChan`, and the read-write lock. Each operation runs alone. The handler runs outside the lock in Go, so a concurrent `AddJob` or `RemoveJob` can also move the slice under a tick; that case is not modelled. `stopChan` is made once (line 70) and closed by `Stop` (line 115) but never made again. After `Stop` and then `Start`, the loop returns at its first `select` (line 124), so nothing ticks, and a second `Stop` closes a closed channel and panics. The model tracks the `running` flag only.
- Time zones are not modelled: `time.Local`, `time.LoadLocation` and daylight-saving jumps. Every cron expression is read in UTC, and the schedule's `tz` field is carried but unused.
- `generateID` reads the nanosecond clock. It is replaced by an `id` parameter that `AddJob` requires to be fresh.
- Go reads the clock separately each time it needs the time. The model takes one time per operation:
  - `nowMs` serves both `updatedAtMs` and the recomputation in `EnableJob`.
  - The handler's end time serves both `updatedAtMs` and the next run in `executeJob`.
- The handler's own work and its string result are not modelled. Only its start and end times and its error message are used.
- `Status`, `Load` and `generateID` themselves are not modelled. `Status` reports `running`, the job count and `NextWakeMs`.
- `ListJobs(true)` returns the store's own slice in Go, and `EnableJob` returns `&cs.store.Jobs[i]`, a pointer into it (lines 478, 490); later updates can reach the caller through either. The model returns values.
- Int64 overflow is not modelled:
  - `nowMs + everyMs` can overflow.
  - A `*/N` step near the int64 maximum wraps the loop counter in Go and adds large negative values.
  - A range ending at the int64 maximum never terminates in Go, because `i++` wraps. The model's `Range` is finite.
  - The search works on unbounded integers.
- Service.CronService.CheckJobs: executes the due jobs by id, the corrected behaviour described under Findings, rather than through pointers into the slice that was collected. Its "no executed job is still due" promise assumes the store's ids are distinct, which nothing enforces on load or reload (lines 141, 387). When an earlier job shares a due job's id, even a disabled one, the model's tick executes that earlier job: the handler gets the wrong job, and the due job stays due. With two due jobs sharing an id, the model updates the first one twice. Go executes the job each collected pointer designates, once.

## Findings

| source | as written | input that shows it | evidently intended | confidence | as-written member | corrected member |
|---|---|---|---|---|---|---|
| pkg/cron/service.go:149-162 | the due jobs are pointers into the store's slice; `removeJobUnsafe` installs a new slice, so the updates `executeJob` makes to later due jobs in the same tick land in the old slice and are lost | two enabled `at` jobs due at the same time, the first with `deleteAfterRun` and the second without: after the tick the second is still enabled with its old next run, so the next tick runs it again | every executed job's update reaches the store, so a job that ran is no longer due | not executed | `LostUpdate.AsWrittenRunsAgain` | `Jobs.RanJobsNotDue` |
