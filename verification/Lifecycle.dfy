/** The life of mounts in the daemon: one monitoring task and any number of request handlers, each
    holding the configuration lock only for the sections shown as one step here. Between two steps any
    other step may run. The environment decides what mounting, unmounting, health checks, saving, the
    clock and the circuit breaker answer. */
module Lifecycle {
  import opened Wrappers
  import opened DirectedGraphs
  import Backoff

  type Id = string

  datatype Status = Active | Reconnecting | Failed | Disabled | InProgress | Error(message: string)

  /** The fields of a `MountConfig` that change. */
  datatype Mount = Mount(enabled: bool, status: Status, attempts: nat)

  type Config = map<Id, Mount>

  function UpdateStatus(m: Mount, s: Status): Mount {
    m.(status := s, attempts := if s == Active then 0 else m.attempts)
  }

  function Enable(m: Mount): Mount {
    UpdateStatus(m.(enabled := true), Disabled)
  }

  function Disable(m: Mount): Mount {
    UpdateStatus(m.(enabled := false), Disabled)
  }

  /** `update_status_to_reconnecting` */
  function MarkReconnecting(m: Mount): Mount {
    UpdateStatus(m.(attempts := m.attempts + 1), Reconnecting)
  }

  function MarkFailed(m: Mount): Mount {
    UpdateStatus(m, Failed)
  }

  function MarkActive(m: Mount): Mount {
    UpdateStatus(m, Active)
  }

  /** `update_status_after_success` */
  function MarkMounted(m: Mount): Mount {
    UpdateStatus(m, Active).(attempts := 0)
  }

  /** Any of the `get_mount_mut` sections: nothing happens when the mount is gone. */
  function Change(c: Config, id: Id, f: Mount -> Mount): Config {
    if id in c then c[id := f(c[id])] else c
  }

  // ---- the tasks -----------------------------------------------------------------------------------

  /** Where the monitoring task is. `todo` is what is left of its snapshot. */
  datatype Monitor =
    | Starting
    | AutoMounting(todo: seq<Id>)
    | Waiting
    | Checking(todo: seq<Id>)
    | Checked
    | Retrying(todo: seq<Id>)
    | Remounting(id: Id, todo: seq<Id>)

  /** A request handler between two of its locked sections. */
  datatype Request =
    | MountRunning(id: Id)
    | MountSucceeded(id: Id)
    | AddingDisabled(id: Id)
    | UnmountRunning(id: Id, thenRemove: bool)
    | UnmountSaving(id: Id, oldStatus: Status, thenRemove: bool)
    | EnableSaving(id: Id, was: bool)
    | DisableSaving(id: Id, was: bool)
    | RemoveWaiting(id: Id)
    | RemountRunning(id: Id)

  datatype State = State(config: Config, monitor: Monitor, requests: seq<Request>)

  /** One locked section, with what the environment answers. `k` picks a request in flight. */
  datatype Step =
    | SkipAutoMount
    | StartAutoMount(ids: seq<Id>)
    | AutoMountEnds(ok: bool)
    | StartChecks(ids: seq<Id>)
    | CheckEnds(healthy: bool)
    | StartRetries(ids: seq<Id>)
    | RetryBlocked
    | RetryBegins
    | RetryEnds(ok: bool, message: string)
    | AskMount(id: Id, lookedUp: Id, disabled: bool)
    | MountEnds(k: nat, ok: bool)
    | AddMount(k: nat)
    | AskUnmount(id: Id, thenRemove: bool)
    | UnmountEnds(k: nat, ok: bool)
    | AskEnable(id: Id)
    | AskDisable(id: Id)
    | SaveEnds(k: nat, ok: bool)
    | AskRemove(id: Id)
    | RemoveNow(k: nat)
    | AskRemount(id: Id)
    | RemountEnds(k: nat, ok: bool)

  predicate IsMonitorStep(step: Step) {
    match step
    case SkipAutoMount | StartAutoMount(_) | AutoMountEnds(_) | StartChecks(_) | CheckEnds(_)
       | StartRetries(_) | RetryBlocked | RetryBegins | RetryEnds(_, _) => true
    case _ => false
  }

  /** `ids` is a snapshot of the mounts satisfying the filter, in some order. */
  ghost predicate Snapshot(c: Config, ids: seq<Id>, filter: Mount -> bool) {
    Distinct(ids) && forall id :: id in ids <==> id in c && filter(c[id])
  }

  predicate AutoMountable(m: Mount) {
    m.enabled && m.status == Disabled
  }

  /** `get_failed_mounts` */
  predicate Retryable(m: Mount) {
    m.enabled && m.status == Failed
  }

  predicate IsActive(m: Mount) {
    m.status == Active
  }

  /** The monitoring task: `run_monitoring_loop` and its passes */
  ghost function MonitorNext(s: State, step: Step): Option<State> {
    match (s.monitor, step)
    case (Starting, SkipAutoMount) => Some(s.(monitor := Waiting))
    case (Starting, StartAutoMount(ids)) =>
      if Snapshot(s.config, ids, AutoMountable) then Some(s.(monitor := AutoMounting(ids))) else None
    case (AutoMounting(todo), AutoMountEnds(ok)) =>
      if todo == [] then Some(s.(monitor := Waiting))
      else Some(s.(monitor := AutoMounting(todo[1..]),
                   config := if ok then Change(s.config, todo[0], MarkMounted) else s.config))
    case (Waiting, StartChecks(ids)) =>
      if Snapshot(s.config, ids, IsActive) then Some(s.(monitor := Checking(ids))) else None
    case (Checking(todo), CheckEnds(healthy)) =>
      if todo == [] then Some(s.(monitor := Checked))
      else Some(s.(monitor := Checking(todo[1..]),
                   config := if healthy then s.config else Change(s.config, todo[0], MarkFailed)))
    case (Checked, StartRetries(ids)) =>
      // the clock decides which of the failed mounts are due
      if Distinct(ids) && forall id :: id in ids ==> id in s.config && Retryable(s.config[id])
      then Some(s.(monitor := Retrying(ids))) else None
    case (Retrying(todo), RetryBlocked) =>
      if todo == [] then Some(s.(monitor := Waiting)) else Some(s.(monitor := Retrying(todo[1..])))
    case (Retrying(todo), RetryBegins) =>
      if todo == [] then None
      else Some(s.(monitor := Remounting(todo[0], todo[1..]), config := Change(s.config, todo[0], MarkReconnecting)))
    case (Remounting(id, todo), RetryEnds(ok, message)) =>
      Some(s.(monitor := Retrying(todo),
              config := Change(s.config, id,
                               if ok then MarkMounted else (m: Mount) => UpdateStatus(m, Error(message)))))
    case _ => None
  }

  function Without(rs: seq<Request>, k: nat): seq<Request>
    requires k < |rs|
  {
    rs[..k] + rs[k + 1..]
  }

  function NewMount(disabled: bool): Mount {
    if disabled then Disable(Mount(true, Disabled, 0)) else UpdateStatus(Mount(true, Disabled, 0), Active)
  }

  /** The request has changed the configuration and is writing it to disk. */
  predicate IsSaving(r: Request) {
    r.UnmountSaving? || r.EnableSaving? || r.DisableSaving?
  }

  /** What remains of an unmount request that was part of a removal. */
  function ThenRemove(rs: seq<Request>, id: Id, thenRemove: bool): seq<Request> {
    if thenRemove then rs + [RemoveWaiting(id)] else rs
  }

  /** The write section after a failed save: each rollback restores a single field. */
  function RolledBack(c: Config, r: Request): Config {
    match r
    case UnmountSaving(id, oldStatus, _) => Change(c, id, (m: Mount) => m.(status := oldStatus))
    case EnableSaving(id, was) => Change(c, id, (m: Mount) => m.(enabled := was))
    case DisableSaving(id, was) => Change(c, id, (m: Mount) => m.(enabled := was))
    case _ => c
  }

  /** The request handlers */
  function RequestNext(s: State, step: Step): Option<State> {
    match step
    case AskMount(id, lookedUp, disabled) =>
      // some drivers look for the mount under another id than it is added under
      if lookedUp in s.config then Some(s)
      else Some(s.(requests := s.requests + [if disabled then AddingDisabled(id) else MountRunning(id)]))
    case MountEnds(k, ok) =>
      if k < |s.requests| && s.requests[k].MountRunning? then
        var id := s.requests[k].id;
        if ok then
          Some(s.(requests := s.requests[k := MountSucceeded(id)], config := Change(s.config, id, MarkMounted)))
        else Some(s.(requests := Without(s.requests, k)))
      else None
    case AddMount(k) =>
      // whatever came under this id since the request looked is overwritten
      if k < |s.requests| && (s.requests[k].MountSucceeded? || s.requests[k].AddingDisabled?) then
        var r := s.requests[k];
        Some(s.(requests := Without(s.requests, k), config := s.config[r.id := NewMount(r.AddingDisabled?)]))
      else None
    case AskUnmount(id, thenRemove) =>
      if id in s.config && IsActive(s.config[id])
      then Some(s.(requests := s.requests + [UnmountRunning(id, thenRemove)]))
      else Some(s.(requests := ThenRemove(s.requests, id, thenRemove)))
    case UnmountEnds(k, ok) =>
      if k < |s.requests| && s.requests[k].UnmountRunning? then
        var UnmountRunning(id, thenRemove) := s.requests[k];
        if !ok || id !in s.config then Some(s.(requests := ThenRemove(Without(s.requests, k), id, thenRemove)))
        else Some(s.(requests := s.requests[k := UnmountSaving(id, s.config[id].status, thenRemove)],
                     config := Change(s.config, id, Disable)))
      else None
    case AskEnable(id) =>
      if id !in s.config then Some(s)
      else Some(s.(requests := s.requests + [EnableSaving(id, s.config[id].enabled)],
                   config := Change(s.config, id, Enable)))
    case AskDisable(id) =>
      if id !in s.config then Some(s)
      else Some(s.(requests := s.requests + [DisableSaving(id, s.config[id].enabled)],
                   config := Change(s.config, id, Disable)))
    case SaveEnds(k, ok) =>
      if k < |s.requests| && IsSaving(s.requests[k]) then
        var r := s.requests[k];
        Some(s.(requests := ThenRemove(Without(s.requests, k), r.id, r.UnmountSaving? && r.thenRemove),
                config := if ok then s.config else RolledBack(s.config, r)))
      else None
    case AskRemove(id) => Some(s.(requests := s.requests + [RemoveWaiting(id)]))
    case RemoveNow(k) =>
      if k < |s.requests| && s.requests[k].RemoveWaiting? then
        Some(s.(requests := Without(s.requests, k), config := s.config - {s.requests[k].id}))
      else None
    case AskRemount(id) =>
      if id !in s.config then Some(s) else Some(s.(requests := s.requests + [RemountRunning(id)]))
    case RemountEnds(k, ok) =>
      if k < |s.requests| && s.requests[k].RemountRunning? then
        Some(s.(requests := Without(s.requests, k),
                config := if ok then Change(s.config, s.requests[k].id, MarkActive) else s.config))
      else None
    case _ => None
  }

  /** The state after a step; None when the step cannot happen. */
  ghost function Next(s: State, step: Step): Option<State> {
    if IsMonitorStep(step) then MonitorNext(s, step) else RequestNext(s, step)
  }

  // ---- the invariant --------------------------------------------------------------------------------

  /** An active or failed mount has no reconnection attempts on its count, and no mount more than one. */
  predicate Sound(m: Mount) {
    (m.status == Active || m.status == Failed ==> m.attempts == 0) && m.attempts <= 1
  }

  ghost predicate AllSound(c: Config) {
    forall id :: id in c ==> Sound(c[id])
  }

  /** What the monitoring task still has to do was snapshot with a zero count. */
  ghost predicate Fresh(c: Config, todo: seq<Id>) {
    Distinct(todo) && forall id :: id in todo && id in c ==> c[id].attempts == 0
  }

  ghost predicate Inv(s: State) {
    && AllSound(s.config)
    && (s.monitor.Checking? ==> Fresh(s.config, s.monitor.todo))
    && (s.monitor.Retrying? ==> Fresh(s.config, s.monitor.todo))
    && (s.monitor.Remounting? ==> Fresh(s.config, s.monitor.todo) && s.monitor.id !in s.monitor.todo)
  }

  /** The one dangerous section: a failed save after an unmount puts the old status back although a
      reconnection has been counted in the meantime. */
  predicate Harmless(s: State, step: Step) {
    step.SaveEnds? && !step.ok && step.k < |s.requests| && s.requests[step.k].UnmountSaving? ==>
      var r := s.requests[step.k];
      r.id in s.config && (r.oldStatus == Active || r.oldStatus == Failed) ==> s.config[r.id].attempts == 0
  }

  lemma FreshTail(c: Config, todo: seq<Id>)
    requires Fresh(c, todo) && todo != []
    ensures Fresh(c, todo[1..]) && todo[0] !in todo[1..]
  {
  }

  /** Every count that changes in a request section becomes zero or stays. */
  ghost predicate CountsOnlyDrop(c: Config, d: Config) {
    forall id :: id in d ==> d[id].attempts == 0 || (id in c && d[id].attempts == c[id].attempts)
  }

  lemma FreshKept(c: Config, d: Config, todo: seq<Id>)
    requires Fresh(c, todo) && CountsOnlyDrop(c, d)
    ensures Fresh(d, todo)
  {
  }

  lemma RequestCounts(s: State, step: Step)
    requires !IsMonitorStep(step) && RequestNext(s, step).Some?
    ensures CountsOnlyDrop(s.config, RequestNext(s, step).value.config)
    ensures RequestNext(s, step).value.monitor == s.monitor
  {
    hide Without, ThenRemove;
  }

  lemma RequestSound(s: State, step: Step)
    requires !IsMonitorStep(step) && RequestNext(s, step).Some? && AllSound(s.config)
    ensures AllSound(RequestNext(s, step).value.config) <==> Harmless(s, step)
  {
    hide Without, ThenRemove;
    var t := RequestNext(s, step).value;
    if !Harmless(s, step) {
      assert !Sound(t.config[s.requests[step.k].id]);
    }
  }

  lemma MonitorKeeps(s: State, step: Step)
    requires IsMonitorStep(step) && MonitorNext(s, step).Some? && Inv(s)
    ensures Inv(MonitorNext(s, step).value)
  {
    match s.monitor {
      case Checking(todo) =>
        if todo != [] { FreshTail(s.config, todo); }
      case Retrying(todo) =>
        if todo != [] { FreshTail(s.config, todo); }
      case _ =>
    }
  }

  /** One step of any task: the invariant is kept if and only if the step is harmless, and otherwise a mount is
      unsound. */
  lemma StepKeepsIff(s: State, step: Step)
    requires Inv(s) && Next(s, step).Some?
    ensures var t := Next(s, step).value;
            (Inv(t) <==> Harmless(s, step)) && (AllSound(t.config) <==> Harmless(s, step))
  {
    if IsMonitorStep(step) {
      MonitorKeeps(s, step);
    } else {
      RequestCounts(s, step);
      RequestSound(s, step);
      var t := RequestNext(s, step).value;
      hide AllSound, RequestNext, Harmless, CountsOnlyDrop, Fresh;
      match s.monitor {
        case Checking(todo) => FreshKept(s.config, t.config, todo);
        case Retrying(todo) => FreshKept(s.config, t.config, todo);
        case Remounting(_, todo) => FreshKept(s.config, t.config, todo);
        case _ =>
      }
    }
  }

  /** The daemon starts with zero counts and nothing under way. */
  ghost predicate Initial(s: State) {
    s.monitor == Starting && s.requests == [] && forall id :: id in s.config ==> s.config[id].attempts == 0
  }

  /** Every step of the run can happen. */
  ghost predicate Runs(s: State, steps: seq<Step>)
    decreases |steps|
  {
    steps != [] ==> Next(s, steps[0]).Some? && Runs(Next(s, steps[0]).value, steps[1..])
  }

  /** Every mount is sound in every state of the run. */
  ghost predicate SoundThroughout(s: State, steps: seq<Step>)
    requires Runs(s, steps)
    decreases |steps|
  {
    AllSound(s.config) && (steps != [] ==> SoundThroughout(Next(s, steps[0]).value, steps[1..]))
  }

  ghost predicate HarmlessThroughout(s: State, steps: seq<Step>)
    requires Runs(s, steps)
    decreases |steps|
  {
    steps != [] ==> Harmless(s, steps[0]) && HarmlessThroughout(Next(s, steps[0]).value, steps[1..])
  }

  /** Over every run from zero counts, under every interleaving: all mounts are sound in all states if and only
      if no unmount rollback meets a counted reconnection. */
  lemma {:induction false} RunSoundIff(s: State, steps: seq<Step>)
    requires Runs(s, steps) && Inv(s)
    ensures SoundThroughout(s, steps) <==> HarmlessThroughout(s, steps)
    decreases |steps|
  {
    InvIsSound(s);
    if steps != [] {
      StepKeepsIff(s, steps[0]);
      hide Next, Inv, Harmless, AllSound;
      var t := Next(s, steps[0]).value;
      if Harmless(s, steps[0]) {
        RunSoundIff(t, steps[1..]);
      } else {
        assert !SoundThroughout(t, steps[1..]);
      }
    }
  }

  lemma InvIsSound(s: State)
    requires Inv(s)
    ensures AllSound(s.config)
  {
  }

  lemma InitialIsSound(s: State)
    requires Initial(s)
    ensures Inv(s)
  {
  }

  // ---- when rollbacks are harmless ----------------------------------------------------------------

  /** No reconnection begins on a mount whose unmount is still being saved. */
  predicate Apart(s: State, step: Step) {
    step.RetryBegins? && s.monitor.Retrying? && s.monitor.todo != [] ==>
      forall r :: r in s.requests && r.UnmountSaving? ==> r.id != s.monitor.todo[0]
  }

  /** Rolling this request back now would be sound. */
  predicate Clean(c: Config, r: Request) {
    r.UnmountSaving? && r.id in c && (r.oldStatus == Active || r.oldStatus == Failed) ==> c[r.id].attempts == 0
  }

  ghost predicate AllClean(s: State) {
    forall r :: r in s.requests ==> Clean(s.config, r)
  }

  lemma WithoutElements(rs: seq<Request>, k: nat)
    requires k < |rs|
    ensures forall r :: r in Without(rs, k) ==> r in rs
  {
  }

  lemma RequestKeepsClean(s: State, step: Step)
    requires !IsMonitorStep(step) && RequestNext(s, step).Some? && AllClean(s) && AllSound(s.config)
    ensures AllClean(RequestNext(s, step).value)
  {
    RequestCounts(s, step);
    var t := RequestNext(s, step).value;
    forall r | r in t.requests ensures Clean(t.config, r) {
      NewRequests(s, step, r);
    }
  }

  lemma NewRequests(s: State, step: Step, r: Request)
    requires !IsMonitorStep(step) && RequestNext(s, step).Some? && r in RequestNext(s, step).value.requests
    ensures || r in s.requests
            || !r.UnmountSaving?
            || (r.id in s.config && s.config[r.id].status == r.oldStatus
                && RequestNext(s, step).value.config[r.id].attempts == s.config[r.id].attempts)
  {
    match step {
      case MountEnds(k, _) => if k < |s.requests| { WithoutElements(s.requests, k); }
      case AddMount(k) => if k < |s.requests| { WithoutElements(s.requests, k); }
      case UnmountEnds(k, _) => if k < |s.requests| { WithoutElements(s.requests, k); }
      case SaveEnds(k, _) => if k < |s.requests| { WithoutElements(s.requests, k); }
      case RemoveNow(k) => if k < |s.requests| { WithoutElements(s.requests, k); }
      case RemountEnds(k, _) => if k < |s.requests| { WithoutElements(s.requests, k); }
      case _ =>
    }
    hide Without;
  }

  lemma MonitorKeepsClean(s: State, step: Step)
    requires IsMonitorStep(step) && MonitorNext(s, step).Some? && AllClean(s) && Apart(s, step)
    ensures AllClean(MonitorNext(s, step).value)
  {
    var t := MonitorNext(s, step).value;
    forall r | r in t.requests ensures Clean(t.config, r) {
      assert r in s.requests && Clean(s.config, r);
    }
  }

  ghost predicate ApartThroughout(s: State, steps: seq<Step>)
    requires Runs(s, steps)
    decreases |steps|
  {
    steps != [] ==> Apart(s, steps[0]) && ApartThroughout(Next(s, steps[0]).value, steps[1..])
  }

  /** As long as reconnections keep apart from unmounts being saved, in particular when requests are
      served one at a time between passes, every state of every run is sound. */
  lemma {:induction false} RunSoundWhenApart(s: State, steps: seq<Step>)
    requires Runs(s, steps) && Inv(s) && AllClean(s) && ApartThroughout(s, steps)
    ensures SoundThroughout(s, steps)
    decreases |steps|
  {
    InvIsSound(s);
    if steps != [] {
      var step := steps[0];
      assert Harmless(s, step) by {
        if step.SaveEnds? && step.k < |s.requests| { assert Clean(s.config, s.requests[step.k]); }
      }
      StepKeepsIff(s, step);
      if IsMonitorStep(step) { MonitorKeepsClean(s, step); } else { RequestKeepsClean(s, step); }
      hide MonitorNext, RequestNext, Inv, Harmless, AllClean, Apart, AllSound;
      RunSoundWhenApart(Next(s, step).value, steps[1..]);
    }
  }

  // ---- the race --------------------------------------------------------------------------------------

  const X: Id := "x"

  function Now(m: Mount, monitor: Monitor, rs: seq<Request>): State {
    State(map[X := m], monitor, rs)
  }

  /** A mount fails its check and is queued for reconnection; before its turn it is remounted and
      unmounted by requests; the reconnection is counted while the unmount is being saved, and the save
      fails. */
  const RACE: seq<Step> :=
    [SkipAutoMount, StartChecks([X]), CheckEnds(false), CheckEnds(true), StartRetries([X]),
     AskRemount(X), RemountEnds(0, true), AskUnmount(X, false), UnmountEnds(0, true),
     RetryBegins, SaveEnds(0, false)]

  /** The state before the i-th step of the race */
  function Race(i: nat): State
    requires i <= 11
  {
    if i == 0 then Now(Mount(true, Active, 0), Starting, [])
    else if i == 1 then Now(Mount(true, Active, 0), Waiting, [])
    else if i == 2 then Now(Mount(true, Active, 0), Checking([X]), [])
    else if i == 3 then Now(Mount(true, Failed, 0), Checking([]), [])
    else if i == 4 then Now(Mount(true, Failed, 0), Checked, [])
    else if i == 5 then Now(Mount(true, Failed, 0), Retrying([X]), [])
    else if i == 6 then Now(Mount(true, Failed, 0), Retrying([X]), [RemountRunning(X)])
    else if i == 7 then Now(Mount(true, Active, 0), Retrying([X]), [])
    else if i == 8 then Now(Mount(true, Active, 0), Retrying([X]), [UnmountRunning(X, false)])
    else if i == 9 then Now(Mount(false, Disabled, 0), Retrying([X]), [UnmountSaving(X, Active, false)])
    else if i == 10 then Now(Mount(false, Reconnecting, 1), Remounting(X, []), [UnmountSaving(X, Active, false)])
    else Now(Mount(false, Active, 1), Remounting(X, []), [])
  }

  lemma MapOver(a: Mount, b: Mount)
    ensures map[X := a][X := b] == map[X := b]
  {
  }

  lemma RaceStepEarly(i: nat)
    requires i < 6
    ensures Next(Race(i), RACE[i]) == Some(Race(i + 1))
  {
    MapOver(Race(i).config[X], Race(i + 1).config[X]);
    assert [X][1..] == [];
    assert [] + [RemountRunning(X)] == [RemountRunning(X)];
  }

  lemma RaceRemounts()
    ensures Next(Race(6), RACE[6]) == Some(Race(7))
  {
    MapOver(Race(6).config[X], Race(7).config[X]);
    assert Without([RemountRunning(X)], 0) == [];
  }

  lemma RaceAsks()
    ensures Next(Race(7), RACE[7]) == Some(Race(8))
  {
    assert [] + [UnmountRunning(X, false)] == [UnmountRunning(X, false)];
  }

  lemma RaceUnmounts()
    ensures Next(Race(8), RACE[8]) == Some(Race(9))
  {
    MapOver(Race(8).config[X], Race(9).config[X]);
    assert [UnmountRunning(X, false)][0 := UnmountSaving(X, Active, false)] == [UnmountSaving(X, Active, false)];
  }

  lemma RaceStepMiddle(i: nat)
    requires 6 <= i < 9
    ensures Next(Race(i), RACE[i]) == Some(Race(i + 1))
  {
    RaceRemounts();
    RaceAsks();
    RaceUnmounts();
    hide Next, Race;
  }

  lemma RaceStepLate(i: nat)
    requires 9 <= i < 11
    ensures Next(Race(i), RACE[i]) == Some(Race(i + 1))
  {
    MapOver(Race(i).config[X], Race(i + 1).config[X]);
    assert [X][1..] == [];
    assert Without([UnmountSaving(X, Active, false)], 0) == [];
  }

  lemma {:induction false} RaceRuns(i: nat)
    requires i <= 11
    ensures Runs(Race(i), RACE[i..]) && !SoundThroughout(Race(i), RACE[i..])
    decreases 11 - i
  {
    if i < 11 {
      if i < 6 { RaceStepEarly(i); } else if i < 9 { RaceStepMiddle(i); } else { RaceStepLate(i); }
      RaceRuns(i + 1);
      hide Next, Inv, Race;
      assert RACE[i..][1..] == RACE[i + 1..];
    } else {
      assert !Sound(Race(11).config[X]);
    }
  }

  /** The condition is needed: this run from zero counts ends with an active mount that has an attempt on its
      count. */
  lemma RollbackRace()
    ensures Initial(Race(0)) && Runs(Race(0), RACE) && !SoundThroughout(Race(0), RACE)
    ensures Race(11).config[X].status == Active && Race(11).config[X].attempts == 1
  {
    RaceRuns(0);
    assert RACE[0..] == RACE;
  }

  // ---- failed reconnections ----------------------------------------------------------------------------

  /** The monitoring task has no business with this mount. */
  predicate OffMonitor(monitor: Monitor, id: Id) {
    match monitor
    case AutoMounting(todo) => id !in todo
    case Checking(todo) => id !in todo
    case Retrying(todo) => id !in todo
    case Remounting(current, todo) => id != current && id !in todo
    case _ => true
  }

  /** The request section names this mount. */
  predicate Concerns(s: State, step: Step, id: Id) {
    match step
    case AskMount(i, _, _) => i == id
    case AskUnmount(i, _) => i == id
    case AskEnable(i) => i == id
    case AskDisable(i) => i == id
    case AskRemove(i) => i == id
    case AskRemount(i) => i == id
    case MountEnds(k, _) => k < |s.requests| && s.requests[k].id == id
    case AddMount(k) => k < |s.requests| && s.requests[k].id == id
    case UnmountEnds(k, _) => k < |s.requests| && s.requests[k].id == id
    case SaveEnds(k, _) => k < |s.requests| && s.requests[k].id == id
    case RemoveNow(k) => k < |s.requests| && s.requests[k].id == id
    case RemountEnds(k, _) => k < |s.requests| && s.requests[k].id == id
    case _ => false
  }

  /** No pass looks for mounts in error, nor for mounts that are being reconnected. */
  ghost predicate GivenUp(s: State, id: Id) {
    && id in s.config && (s.config[id].status.Error? || s.config[id].status.Reconnecting?)
    && OffMonitor(s.monitor, id) && s.monitor != Starting
  }

  lemma StepLeavesGivenUp(s: State, step: Step, id: Id)
    requires Next(s, step).Some? && GivenUp(s, id) && !Concerns(s, step, id)
    ensures GivenUp(Next(s, step).value, id) && Next(s, step).value.config[id] == s.config[id]
  {
    if IsMonitorStep(step) {
      match s.monitor {
        case AutoMounting(todo) => if todo != [] { assert todo[0] in todo; }
        case Checking(todo) => if todo != [] { assert todo[0] in todo; }
        case Retrying(todo) => if todo != [] { assert todo[0] in todo; }
        case _ =>
      }
    } else {
      hide Without, ThenRemove;
    }
  }

  ghost predicate NoneConcerns(s: State, steps: seq<Step>, id: Id)
    requires Runs(s, steps)
    decreases |steps|
  {
    steps != [] ==> !Concerns(s, steps[0], id) && NoneConcerns(Next(s, steps[0]).value, steps[1..], id)
  }

  ghost function Final(s: State, steps: seq<Step>): State
    requires Runs(s, steps)
    decreases |steps|
  {
    if steps == [] then s else Final(Next(s, steps[0]).value, steps[1..])
  }

  /** Once a mount is in error or reconnecting and off the monitoring task's lists, no pass ever selects or changes it
      again, however long the daemon runs, until a request names it. */
  lemma {:induction false} ErrorIsFinal(s: State, steps: seq<Step>, id: Id)
    requires Runs(s, steps) && GivenUp(s, id) && NoneConcerns(s, steps, id)
    ensures GivenUp(Final(s, steps), id) && Final(s, steps).config[id] == s.config[id]
    decreases |steps|
  {
    if steps != [] {
      StepLeavesGivenUp(s, steps[0], id);
      hide Next, GivenUp, Concerns;
      ErrorIsFinal(Next(s, steps[0]).value, steps[1..], id);
    }
  }

  /** A reconnection that fails puts its mount in exactly that position. */
  lemma FailedRetryGivesUp(s: State, message: string)
    requires Inv(s) && s.monitor.Remounting? && s.monitor.id in s.config
    ensures Next(s, RetryEnds(false, message)).Some?
    ensures GivenUp(Next(s, RetryEnds(false, message)).value, s.monitor.id)
  {
  }

  /** In a sound state every mount due for reconnection has a zero count, so the delay consulted for it
      is always the initial one: the exponential curve is never climbed. */
  lemma DelayNeverGrows(s: State, id: Id, initial: nat, max: nat, multiplier: real)
    requires Inv(s) && id in s.config && Retryable(s.config[id])
    requires multiplier >= 1.0 && initial < Backoff.I64 && max < Backoff.I64
    ensures s.config[id].attempts < Backoff.U32
    ensures Backoff.Delay(initial, max, multiplier, s.config[id].attempts) == initial
  {
    assert Sound(s.config[id]);
  }
}
