/** What requests and passes do to a mount, in terms of its fields: the state that each locked section leaves, and what
    stays that way over any run. */
module Requests {
  import opened Wrappers
  import opened DirectedGraphs
  import opened Lifecycle

  // ---- single sections ---------------------------------------------------------------------------------------

  ghost predicate SameMount(c: Config, d: Config, id: Id) {
    (id in d <==> id in c) && (id in c ==> d[id] == c[id])
  }

  /** A request section that does not name the mount leaves it alone. */
  lemma UnconcernedStays(s: State, step: Step, id: Id)
    requires !IsMonitorStep(step) && RequestNext(s, step).Some? && !Concerns(s, step, id)
    ensures SameMount(s.config, RequestNext(s, step).value.config, id)
  {
    hide Without, ThenRemove;
  }

  /** The mount that the monitoring task is about to deal with */
  function Current(monitor: Monitor): Option<Id> {
    match monitor
    case AutoMounting(todo) => if todo == [] then None else Some(todo[0])
    case Checking(todo) => if todo == [] then None else Some(todo[0])
    case Retrying(todo) => if todo == [] then None else Some(todo[0])
    case Remounting(id, _) => Some(id)
    case _ => None
  }

  /** The monitoring task changes one mount at a time, and no requests. */
  lemma MonitorTouchesCurrent(s: State, step: Step, id: Id)
    requires IsMonitorStep(step) && MonitorNext(s, step).Some? && Current(s.monitor) != Some(id)
    ensures SameMount(s.config, MonitorNext(s, step).value.config, id)
    ensures MonitorNext(s, step).value.requests == s.requests
  {
  }

  /** At the start exactly the enabled mounts that wait are queued, and those that can be mounted become active. */
  lemma AutoMountMounts(s: State, ids: seq<Id>, ok: bool)
    ensures s.monitor.Starting? && Next(s, StartAutoMount(ids)).Some? ==>
              forall id :: id in ids <==> id in s.config && s.config[id].enabled && s.config[id].status == Disabled
    ensures s.monitor == AutoMounting(ids) && ids != [] ==>
              && Next(s, AutoMountEnds(ok)).Some?
              && var t := Next(s, AutoMountEnds(ok)).value;
                 && t.monitor == AutoMounting(ids[1..]) && t.config.Keys == s.config.Keys
                 && (ids[0] in s.config ==>
                       t.config[ids[0]] == if ok then Mount(s.config[ids[0]].enabled, Active, 0) else s.config[ids[0]])
  {
  }

  /** A health pass takes the active mounts; one that fails its check becomes failed, with its count. */
  lemma ChecksFail(s: State, ids: seq<Id>, healthy: bool)
    ensures s.monitor.Waiting? && Next(s, StartChecks(ids)).Some? ==>
              forall id :: id in ids <==> id in s.config && s.config[id].status == Active
    ensures s.monitor == Checking(ids) && ids != [] ==>
              && Next(s, CheckEnds(healthy)).Some?
              && var t := Next(s, CheckEnds(healthy)).value;
                 && t.monitor == Checking(ids[1..]) && t.config.Keys == s.config.Keys
                 && (ids[0] in s.config ==>
                       t.config[ids[0]] == var m := s.config[ids[0]];
                                           if healthy then m else Mount(m.enabled, Failed, m.attempts))
  {
  }

  /** A reconnection pass takes enabled failed mounts only; a mount is counted and marked before it is remounted, and
      ends active with a zero count or in error. */
  lemma RetriesReconnect(s: State, ids: seq<Id>, id: Id, ok: bool, message: string)
    ensures s.monitor.Checked? && Next(s, StartRetries(ids)).Some? ==>
              forall i :: i in ids ==> i in s.config && s.config[i].enabled && s.config[i].status == Failed
    ensures s.monitor == Retrying([id] + ids) ==>
              && Next(s, RetryBlocked) == Some(s.(monitor := Retrying(ids)))
              && Next(s, RetryBegins).Some?
              && var t := Next(s, RetryBegins).value;
                 && t.monitor == Remounting(id, ids) && t.config.Keys == s.config.Keys
                 && (id in s.config ==>
                       t.config[id] == Mount(s.config[id].enabled, Reconnecting, s.config[id].attempts + 1))
    ensures s.monitor == Remounting(id, ids) ==>
              && Next(s, RetryEnds(ok, message)).Some?
              && var t := Next(s, RetryEnds(ok, message)).value;
                 && t.monitor == Retrying(ids) && t.config.Keys == s.config.Keys
                 && (id in s.config ==>
                       t.config[id] == var m := s.config[id];
                                       if ok then Mount(m.enabled, Active, 0)
                                       else Mount(m.enabled, Error(message), m.attempts))
  {
    assert ([id] + ids)[1..] == ids;
  }

  /** A mount request ends with an active mount, or with a disabled one if that was asked for, whatever stood under its
      id before. */
  lemma MountAdds(s: State, k: nat)
    requires k < |s.requests|
    ensures s.requests[k].MountRunning? ==>
              && Next(s, MountEnds(k, true)).Some?
              && Next(s, MountEnds(k, true)).value.requests == s.requests[k := MountSucceeded(s.requests[k].id)]
              && Next(s, MountEnds(k, false)).Some? && Next(s, MountEnds(k, false)).value.config == s.config
    ensures s.requests[k].MountSucceeded? || s.requests[k].AddingDisabled? ==>
              && Next(s, AddMount(k)).Some?
              && var c := Next(s, AddMount(k)).value.config;
                 && c.Keys == s.config.Keys + {s.requests[k].id}
                 && c[s.requests[k].id]
                    == if s.requests[k].MountSucceeded? then Mount(true, Active, 0) else Mount(false, Disabled, 0)
  {
    hide Without;
  }

  /** An unmount that succeeds leaves the mount off; a failed save puts back its status and nothing else. */
  lemma UnmountTurnsOff(s: State, k: nat)
    requires k < |s.requests| && s.requests[k].UnmountRunning? && s.requests[k].id in s.config
    ensures var id, m := s.requests[k].id, s.config[s.requests[k].id];
            && Next(s, UnmountEnds(k, false)).Some? && Next(s, UnmountEnds(k, false)).value.config == s.config
            && Next(s, UnmountEnds(k, true)).Some?
            && var t := Next(s, UnmountEnds(k, true)).value;
               && t.config[id] == Mount(false, Disabled, m.attempts)
               && |t.requests| == |s.requests| && t.requests[k].UnmountSaving?
               && Next(t, SaveEnds(k, true)).Some? && Next(t, SaveEnds(k, true)).value.config == t.config
               && Next(t, SaveEnds(k, false)).Some?
               && Next(t, SaveEnds(k, false)).value.config[id] == Mount(false, m.status, m.attempts)
  {
    hide Without, ThenRemove;
  }

  lemma RemoveRemoves(s: State, k: nat)
    requires k < |s.requests| && s.requests[k].RemoveWaiting?
    ensures Next(s, RemoveNow(k)).Some?
    ensures Next(s, RemoveNow(k)).value.config.Keys == s.config.Keys - {s.requests[k].id}
  {
    hide Without;
  }

  lemma RemountActivates(s: State, k: nat, ok: bool)
    requires k < |s.requests| && s.requests[k].RemountRunning? && s.requests[k].id in s.config
    ensures Next(s, RemountEnds(k, ok)).Some?
    ensures var id, m := s.requests[k].id, s.config[s.requests[k].id];
            Next(s, RemountEnds(k, ok)).value.config[id] == if ok then Mount(m.enabled, Active, 0) else m
  {
    hide Without;
  }

  // ---- which requests are under way --------------------------------------------------------------------------

  /** What a question adds to the requests under way. A mount is asked for only if none is found under the id that is
      looked up; only an active mount is unmounted, but a removal goes on without. */
  lemma AskQueues(s: State, id: Id, lookedUp: Id, flag: bool)
    ensures Next(s, AskMount(id, lookedUp, flag))
         == Some(if lookedUp in s.config then s
                 else s.(requests := s.requests + [if flag then AddingDisabled(id) else MountRunning(id)]))
    ensures Next(s, AskUnmount(id, flag))
         == Some(if id in s.config && s.config[id].status == Active
                 then s.(requests := s.requests + [UnmountRunning(id, flag)])
                 else if flag then s.(requests := s.requests + [RemoveWaiting(id)]) else s)
    ensures Next(s, AskRemove(id)) == Some(s.(requests := s.requests + [RemoveWaiting(id)]))
    ensures Next(s, AskRemount(id))
         == Some(if id in s.config then s.(requests := s.requests + [RemountRunning(id)]) else s)
  {
  }

  lemma WithoutOne(rs: seq<Request>, k: nat)
    requires k < |rs|
    ensures multiset(Without(rs, k)) + multiset{rs[k]} == multiset(rs)
  {
    assert rs == rs[..k] + [rs[k]] + rs[k + 1..];
  }

  /** The last section of a request */
  predicate EndsRequest(s: State, step: Step, k: nat)
    requires k < |s.requests|
  {
    match step
    case MountEnds(i, ok) => i == k && !ok
    case AddMount(i) => i == k
    case UnmountEnds(i, ok) => i == k && (!ok || s.requests[k].id !in s.config)
    case SaveEnds(i, _) => i == k
    case RemoveNow(i) => i == k
    case RemountEnds(i, _) => i == k
    case _ => false
  }

  /** It takes this request away and no other; an unmount that was part of a removal leaves the removal to be done,
      whether it succeeded or not. */
  lemma RequestsEnd(s: State, step: Step, k: nat)
    requires k < |s.requests| && Next(s, step).Some? && EndsRequest(s, step, k)
    ensures var r := s.requests[k];
            multiset(Next(s, step).value.requests) + multiset{r} ==
            multiset(s.requests)
            + if (r.UnmountRunning? || r.UnmountSaving?) && r.thenRemove then multiset{RemoveWaiting(r.id)}
              else multiset{}
  {
    WithoutOne(s.requests, k);
    hide Without;
  }

  // ---- switching mounts on and off --------------------------------------------------------------------------

  /** What is asked for: the switch, and a mount that waits to be mounted, with its count */
  predicate Switched(m: Mount, was: Mount, on: bool) {
    m.enabled == on && m.status == Disabled && m.attempts == was.attempts
  }

  function Ask(on: bool, id: Id): Step {
    if on then AskEnable(id) else AskDisable(id)
  }

  /** An unknown mount is refused; a known one is switched at once, and the request keeps the old switch. */
  lemma AskSwitches(s: State, on: bool, id: Id)
    ensures id !in s.config ==> Next(s, Ask(on, id)) == Some(s)
    ensures id in s.config ==>
              && Next(s, Ask(on, id)).Some?
              && var t := Next(s, Ask(on, id)).value;
                 && t.config.Keys == s.config.Keys && Switched(t.config[id], s.config[id], on)
                 && t.monitor == s.monitor
                 && |t.requests| == |s.requests| + 1 && t.requests[..|s.requests|] == s.requests
                 && t.requests[|s.requests|]
                    == if on then EnableSaving(id, s.config[id].enabled) else DisableSaving(id, s.config[id].enabled)
  {
  }

  /** A failed save gives back the old switch and leaves the rest, a successful one changes nothing. */
  lemma SaveRestoresSwitch(s: State, k: nat, ok: bool)
    requires k < |s.requests| && (s.requests[k].EnableSaving? || s.requests[k].DisableSaving?)
    ensures Next(s, SaveEnds(k, ok)).Some?
    ensures var id, c := s.requests[k].id, Next(s, SaveEnds(k, ok)).value.config;
            && c.Keys == s.config.Keys
            && (id in s.config ==>
                  && c[id].status == s.config[id].status && c[id].attempts == s.config[id].attempts
                  && c[id].enabled == if ok then s.config[id].enabled else s.requests[k].was)
  {
    hide Without, ThenRemove;
  }

  /** The section does not name the mount, or only reports that its change has been saved. */
  predicate Leaves(s: State, step: Step, id: Id) {
    !Concerns(s, step, id) || (step.SaveEnds? && step.ok)
  }

  ghost predicate AllLeave(s: State, steps: seq<Step>, id: Id)
    requires Runs(s, steps)
    decreases |steps|
  {
    steps != [] ==> Leaves(s, steps[0], id) && AllLeave(Next(s, steps[0]).value, steps[1..], id)
  }

  /** A mount that waits and that no pass holds. Only the very first pass would mount it, if it is enabled. */
  ghost predicate Rests(s: State, id: Id) {
    && id in s.config && s.config[id].status == Disabled
    && OffMonitor(s.monitor, id) && (s.monitor.Starting? ==> !s.config[id].enabled)
  }

  lemma SavedStays(s: State, step: Step, id: Id)
    requires step.SaveEnds? && step.ok && RequestNext(s, step).Some?
    ensures SameMount(s.config, RequestNext(s, step).value.config, id)
    ensures RequestNext(s, step).value.monitor == s.monitor
  {
    hide Without, ThenRemove;
  }

  lemma StepLeavesResting(s: State, step: Step, id: Id)
    requires Next(s, step).Some? && Rests(s, id) && Leaves(s, step, id)
    ensures Rests(Next(s, step).value, id) && Next(s, step).value.config[id] == s.config[id]
  {
    if IsMonitorStep(step) {
      MonitorLeavesResting(s, step, id);
    } else {
      if Concerns(s, step, id) {
        SavedStays(s, step, id);
      } else {
        UnconcernedStays(s, step, id);
      }
      RequestCounts(s, step);
      hide RequestNext, Concerns;
    }
  }

  lemma MonitorLeavesResting(s: State, step: Step, id: Id)
    requires IsMonitorStep(step) && MonitorNext(s, step).Some? && Rests(s, id)
    ensures Rests(MonitorNext(s, step).value, id) && MonitorNext(s, step).value.config[id] == s.config[id]
  {
    match s.monitor {
      case AutoMounting(todo) => if todo != [] { assert todo[0] in todo; }
      case Checking(todo) => if todo != [] { assert todo[0] in todo; }
      case Retrying(todo) => if todo != [] { assert todo[0] in todo; }
      case _ =>
    }
  }

  lemma {:induction false} RestingStays(s: State, steps: seq<Step>, id: Id)
    requires Runs(s, steps) && Rests(s, id) && AllLeave(s, steps, id)
    ensures Rests(Final(s, steps), id) && Final(s, steps).config[id] == s.config[id]
    decreases |steps|
  {
    if steps != [] {
      StepLeavesResting(s, steps[0], id);
      hide Next, Rests, Leaves;
      RestingStays(Next(s, steps[0]).value, steps[1..], id);
    }
  }

  /** Over every run in which the mount is asked for nothing else and its change is saved: a mount that was switched on
      or off while no pass held it stays switched, waiting, with its count, and no pass takes it. For a mount switched
      off this holds from the very start of the daemon. */
  lemma SwitchedStays(s: State, on: bool, id: Id, steps: seq<Step>)
    requires id in s.config && OffMonitor(s.monitor, id) && (s.monitor.Starting? ==> !on)
    requires Runs(s, [Ask(on, id)] + steps) && AllLeave(Next(s, Ask(on, id)).value, steps, id)
    ensures var t := Final(s, [Ask(on, id)] + steps);
            id in t.config && Switched(t.config[id], s.config[id], on) && OffMonitor(t.monitor, id)
  {
    AskSwitches(s, on, id);
    assert ([Ask(on, id)] + steps)[1..] == steps;
    hide Next, OffMonitor, AllLeave;
    RestingStays(Next(s, Ask(on, id)).value, steps, id);
  }
}
