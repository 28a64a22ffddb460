/** Who attends to a mount that is being reconnected: the monitoring task, unless an unmount rollback puts that
    status back after the reconnection is over. */
module Stranding {
  import opened Wrappers
  import opened DirectedGraphs
  import opened Lifecycle

  /** Only the mount that the monitoring task is remounting is shown as reconnecting. */
  ghost predicate Attended(s: State) {
    forall id :: id in s.config && s.config[id].status == Reconnecting ==> s.monitor.Remounting? && s.monitor.id == id
  }

  /** The one section that breaks this: a failed save puts back a `Reconnecting` that the unmount had met, and the
      reconnection it belonged to is over. */
  predicate Strands(s: State, step: Step) {
    && step.SaveEnds? && !step.ok && step.k < |s.requests| && s.requests[step.k].UnmountSaving?
    && var r := s.requests[step.k];
       r.oldStatus == Reconnecting && r.id in s.config && !(s.monitor.Remounting? && s.monitor.id == r.id)
  }

  lemma MonitorAttends(s: State, step: Step)
    requires IsMonitorStep(step) && MonitorNext(s, step).Some? && Attended(s)
    ensures Attended(MonitorNext(s, step).value)
  {
  }

  lemma RequestAttends(s: State, step: Step)
    requires !IsMonitorStep(step) && RequestNext(s, step).Some? && Attended(s)
    ensures Attended(RequestNext(s, step).value) <==> !Strands(s, step)
  {
    hide Without, ThenRemove;
    var t := RequestNext(s, step).value;
    if Strands(s, step) {
      assert t.config[s.requests[step.k].id].status == Reconnecting;
    }
  }

  lemma StepAttendsIff(s: State, step: Step)
    requires Next(s, step).Some? && Attended(s)
    ensures Attended(Next(s, step).value) <==> !Strands(s, step)
  {
    if IsMonitorStep(step) {
      MonitorAttends(s, step);
    } else {
      RequestAttends(s, step);
    }
  }

  ghost predicate AttendedThroughout(s: State, steps: seq<Step>)
    requires Runs(s, steps)
    decreases |steps|
  {
    Attended(s) && (steps != [] ==> AttendedThroughout(Next(s, steps[0]).value, steps[1..]))
  }

  ghost predicate NeverStrands(s: State, steps: seq<Step>)
    requires Runs(s, steps)
    decreases |steps|
  {
    steps != [] ==> !Strands(s, steps[0]) && NeverStrands(Next(s, steps[0]).value, steps[1..])
  }

  /** Over every interleaving: in all states only the mount being remounted is reconnecting, if and only if no
      rollback puts that status back too late. */
  lemma {:induction false} RunAttendedIff(s: State, steps: seq<Step>)
    requires Runs(s, steps) && Attended(s)
    ensures AttendedThroughout(s, steps) <==> NeverStrands(s, steps)
    decreases |steps|
  {
    if steps != [] {
      StepAttendsIff(s, steps[0]);
      hide Next, Attended, Strands;
      var t := Next(s, steps[0]).value;
      if Strands(s, steps[0]) {
        assert !AttendedThroughout(t, steps[1..]);
      } else {
        RunAttendedIff(t, steps[1..]);
      }
    }
  }

  /** The stranded mount is given up: by `Lifecycle.ErrorIsFinal` no pass selects it again. */
  lemma StrandedIsGivenUp(s: State, step: Step)
    requires Next(s, step).Some? && Strands(s, step) && OffMonitor(s.monitor, s.requests[step.k].id)
    requires s.monitor != Starting
    ensures GivenUp(Next(s, step).value, s.requests[step.k].id)
  {
  }

  // ---- it happens ------------------------------------------------------------------------------------

  /** A mount is unmounted on request while its health check fails; the unmount is over when the reconnection has
      begun, and its save fails when the reconnection has failed. */
  const STRANDING: seq<Step> :=
    [SkipAutoMount, StartChecks([X]), AskUnmount(X, false), CheckEnds(false), CheckEnds(true), StartRetries([X]),
     RetryBegins, UnmountEnds(0, true), RetryEnds(false, ""), RetryBlocked, SaveEnds(0, false)]

  const RUNNING: seq<Request> := [UnmountRunning(X, false)]
  const SAVING: seq<Request> := [UnmountSaving(X, Reconnecting, false)]

  /** The state before the i-th step */
  function Stage(i: nat): State
    requires i <= 11
  {
    if i == 0 then Now(Mount(true, Active, 0), Starting, [])
    else if i == 1 then Now(Mount(true, Active, 0), Waiting, [])
    else if i == 2 then Now(Mount(true, Active, 0), Checking([X]), [])
    else if i == 3 then Now(Mount(true, Active, 0), Checking([X]), RUNNING)
    else if i == 4 then Now(Mount(true, Failed, 0), Checking([]), RUNNING)
    else if i == 5 then Now(Mount(true, Failed, 0), Checked, RUNNING)
    else if i == 6 then Now(Mount(true, Failed, 0), Retrying([X]), RUNNING)
    else if i == 7 then Now(Mount(true, Reconnecting, 1), Remounting(X, []), RUNNING)
    else if i == 8 then Now(Mount(false, Disabled, 1), Remounting(X, []), SAVING)
    else if i == 9 then Now(Mount(false, Error(""), 1), Retrying([]), SAVING)
    else if i == 10 then Now(Mount(false, Error(""), 1), Waiting, SAVING)
    else Now(Mount(false, Reconnecting, 1), Waiting, [])
  }

  lemma FirstStages(i: nat)
    requires i < 4
    ensures Next(Stage(i), STRANDING[i]) == Some(Stage(i + 1))
  {
    MapOver(Stage(i).config[X], Stage(i + 1).config[X]);
    assert [X][1..] == [] && [] + RUNNING == RUNNING;
  }

  lemma MiddleStages(i: nat)
    requires 4 <= i < 8
    ensures Next(Stage(i), STRANDING[i]) == Some(Stage(i + 1))
  {
    MapOver(Stage(i).config[X], Stage(i + 1).config[X]);
    assert [X][1..] == [] && RUNNING[0 := SAVING[0]] == SAVING;
  }

  lemma LastStages(i: nat)
    requires 8 <= i < 11
    ensures Next(Stage(i), STRANDING[i]) == Some(Stage(i + 1))
  {
    MapOver(Stage(i).config[X], Stage(i + 1).config[X]);
    assert Without(SAVING, 0) == [];
  }

  lemma {:induction false} StagesRun(i: nat)
    requires i <= 11
    ensures Runs(Stage(i), STRANDING[i..]) && Final(Stage(i), STRANDING[i..]) == Stage(11)
    decreases 11 - i
  {
    if i < 11 {
      if i < 4 { FirstStages(i); } else if i < 8 { MiddleStages(i); } else { LastStages(i); }
      StagesRun(i + 1);
      hide Next, Stage;
      assert STRANDING[i..][1..] == STRANDING[i + 1..];
    }
  }

  /** A run from zero counts that leaves a mount reconnecting which no pass will ever select. */
  lemma MountIsStranded()
    ensures Initial(Stage(0)) && Attended(Stage(0)) && Runs(Stage(0), STRANDING)
    ensures GivenUp(Final(Stage(0), STRANDING), X)
    ensures Final(Stage(0), STRANDING).config[X].status == Reconnecting
  {
    StagesRun(0);
    assert STRANDING[0..] == STRANDING;
  }
}
