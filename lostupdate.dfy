// A tick as `checkJobs` and `executeJob` are written. The due jobs are pointers into
// the slice the store held when they were collected. `removeJobUnsafe` installs a new
// slice, so every update made through a pointer after a removal lands in the old slice
// and never reaches the store: a job that ran keeps its old next run and runs again.
module LostUpdate {
  import opened Wrappers
  import opened Schedule
  import opened Jobs

  /** The positions of the due jobs, in order: where the pointers of `dueJobs` point. */
  function DuePositions(js: seq<Job>, nowMs: int): (ps: seq<nat>)
    ensures forall k :: 0 <= k < |ps| ==> ps[k] < |js| && IsDue(js[ps[k]], nowMs)
    ensures forall k, l :: 0 <= k < l < |ps| ==> ps[k] < ps[l]
    ensures forall i :: 0 <= i < |js| && IsDue(js[i], nowMs) ==> i in ps
  {
    if js == [] then []
    else
      var init := DuePositions(js[..|js| - 1], nowMs);
      if IsDue(js[|js| - 1], nowMs) then init + [|js| - 1] else init
  }

  /** The executions of a tick as written. `slice` is the slice the pointers point into;
      `store` is `None` while the store still holds `slice`, and the slice a removal
      installed after that. */
  function ExecuteAsWritten(slice: seq<Job>, store: Option<seq<Job>>, due: seq<nat>,
                            outcome: Job -> Run): seq<Job>
    requires forall k :: 0 <= k < |due| ==> due[k] < |slice|
    decreases |due|
  {
    var current := if store.Some? then store.value else slice;
    if due == [] then current
    else
      var j := slice[due[0]];
      if j.schedule.kind == "at" && j.deleteAfterRun then
        ExecuteAsWritten(slice, Some(WithoutId(current, j.id)), due[1..], outcome)
      else
        ExecuteAsWritten(slice[due[0] := AfterRun(j, outcome(j))], store, due[1..], outcome)
  }

  /** The store after a tick at `nowMs` as written. */
  function CheckJobsAsWritten(js: seq<Job>, nowMs: int, outcome: Job -> Run): seq<Job> {
    ExecuteAsWritten(js, None, DuePositions(js, nowMs), outcome)
  }

  /** An enabled one-shot job due at 1000 ms. */
  function OneShot(id: string, deleteAfterRun: bool): Job {
    Job(id, "", true, CronSchedule("at", Some(1000), None, "", ""),
        Payload("agent_turn", "", false, "", ""), JobState(Some(1000), None, "", ""),
        0, 0, deleteAfterRun)
  }

  /** Two one-shot jobs due in the same tick, the first to be deleted after its run. */
  function TwoOneShots(): seq<Job> {
    [OneShot("a", true), OneShot("b", false)]
  }

  /** A handler that succeeds at once, at 1000 ms. */
  function Succeeds(): Job -> Run {
    (j: Job) => Run(1000, 1000, None)
  }

  lemma BothDue()
    ensures DuePositions(TwoOneShots(), 1000) == [0, 1]
    ensures DueJobs(TwoOneShots(), 1000) == TwoOneShots()
    ensures IdsOf(DueJobs(TwoOneShots(), 1000)) == ["a", "b"]
  {
    var a, b := OneShot("a", true), OneShot("b", false);
    var js := [a, b];
    assert js[..1] == [a] && [a][..0] == [];
    assert IsDue(a, 1000) && IsDue(b, 1000);
    assert DuePositions([a], 1000) == [0];
    assert Filter([a], DueAt(1000)) == [a];
    assert IdsOf([a]) == ["a"];
  }

  lemma FirstRemoved()
    ensures WithoutId(TwoOneShots(), "a") == [OneShot("b", false)]
  {
    var a, b := OneShot("a", true), OneShot("b", false);
    assert [a, b][..1] == [a] && [a][..0] == [];
    assert Filter([a], OtherId("a")) == [];
  }

  /** As written, the second job runs but its update is lost: it stays enabled and due,
      so the next tick runs it again. */
  lemma AsWrittenRunsAgain()
    ensures CheckJobsAsWritten(TwoOneShots(), 1000, Succeeds()) == [OneShot("b", false)]
    ensures IsDue(OneShot("b", false), 1000)
  {
    var b := OneShot("b", false);
    BothDue();
    FirstRemoved();
    assert [0, 1][1..] == [1] && [1][1..] == [];
    assert ExecuteAsWritten(TwoOneShots(), Some([b]), [1], Succeeds()) == [b];
  }

  lemma ExecuteFirst()
    ensures ExecuteById(TwoOneShots(), "a", Succeeds()) == [OneShot("b", false)]
  {
    assert FindIndex(TwoOneShots(), "a") == Some(0);
    FirstRemoved();
  }

  lemma ExecuteSecond()
    ensures ExecuteById([OneShot("b", false)], "b", Succeeds()) ==
      [AfterRun(OneShot("b", false), Run(1000, 1000, None))]
  {
    assert FindIndex([OneShot("b", false)], "b") == Some(0);
  }

  /** Executed by id, the same tick switches the second job off. */
  lemma ByIdSwitchesOff()
    ensures RunDue(TwoOneShots(), IdsOf(DueJobs(TwoOneShots(), 1000)), Succeeds()) ==
      [AfterRun(OneShot("b", false), Run(1000, 1000, None))]
    ensures !IsDue(AfterRun(OneShot("b", false), Run(1000, 1000, None)), 1000)
  {
    BothDue();
    ExecuteFirst();
    ExecuteSecond();
    var ids := ["a", "b"];
    assert ids[..1] == ["a"] && ["a"][..0] == [];
    assert RunDue(TwoOneShots(), ["a"], Succeeds()) == [OneShot("b", false)];
    AfterRunUpdates(OneShot("b", false), Run(1000, 1000, None));
  }
}
