/** The mount record and the passes of the monitoring task as they run: methods that update fields, and
    loops over snapshots. Run without interruption, a pass does what the steps of `Lifecycle` do. */
module Passes {
  import opened Wrappers
  import opened DirectedGraphs
  import opened Lifecycle

  /** `MountConfig`, with the fields its methods touch. Times come from the caller. */
  class MountConfig {
    var enabled: bool
    var status: Status
    var updatedAt: int
    var lastConnected: Option<int>
    var reconnectAttempts: nat

    function Value(): Mount
      reads this
    {
      Mount(enabled, status, reconnectAttempts)
    }

    constructor (now: int)
      ensures Value() == Mount(true, Disabled, 0) && updatedAt == now && lastConnected == None
    {
      enabled, status, updatedAt, lastConnected, reconnectAttempts := true, Disabled, now, None, 0;
    }

    method SetStatus(s: Status, now: int, connectedAt: int)
      modifies this
      ensures Value() == UpdateStatus(old(Value()), s) && updatedAt == now
      ensures enabled == old(enabled) && status == s
      ensures reconnectAttempts == if s == Active then 0 else old(reconnectAttempts)
      ensures lastConnected == if s == Active then Some(connectedAt) else old(lastConnected)
    {
      var isActive := s == Active;
      status := s;
      updatedAt := now;
      if isActive {
        lastConnected := Some(connectedAt);
        reconnectAttempts := 0;
      }
    }

    method IncrementReconnectAttempts(now: int)
      modifies this
      ensures Value() == old(Value()).(attempts := old(reconnectAttempts) + 1) && updatedAt == now
      ensures lastConnected == old(lastConnected)
    {
      reconnectAttempts := reconnectAttempts + 1;
      updatedAt := now;
    }

    method TurnOn(now: int)
      modifies this
      ensures Value() == Enable(old(Value())) && updatedAt == now && lastConnected == old(lastConnected)
      ensures enabled && status == Disabled && reconnectAttempts == old(reconnectAttempts)
    {
      enabled := true;
      SetStatus(Disabled, now, now);
    }

    method TurnOff(now: int)
      modifies this
      ensures Value() == Disable(old(Value())) && updatedAt == now && lastConnected == old(lastConnected)
      ensures !enabled && status == Disabled && reconnectAttempts == old(reconnectAttempts)
    {
      enabled := false;
      SetStatus(Disabled, now, now);
    }

    /** `update_status_after_success` on this record */
    method FinishMounting(now: int, later: int)
      modifies this
      ensures Value() == MarkMounted(old(Value())) && updatedAt == later && lastConnected == Some(now)
      ensures enabled == old(enabled) && status == Active && reconnectAttempts == 0
    {
      SetStatus(Active, now, now);
      reconnectAttempts := 0;
      updatedAt := later;
    }

    /** `update_status_to_reconnecting` on this record */
    method BeginReconnecting(now: int, later: int)
      modifies this
      ensures Value() == MarkReconnecting(old(Value())) && updatedAt == later
      ensures enabled == old(enabled) && status == Reconnecting && reconnectAttempts == old(reconnectAttempts) + 1
      ensures lastConnected == old(lastConnected)
    {
      IncrementReconnectAttempts(now);
      SetStatus(Reconnecting, later, later);
    }
  }

  // ---- what a pass computes ------------------------------------------------------------------------

  /** What comes of one mount queued for reconnection. */
  datatype Answer = CircuitOpen | Mounted | Refused(message: string)

  function CheckAll(c: Config, ids: seq<Id>, healthy: Id -> bool): Config {
    if ids == [] then c
    else CheckAll(if healthy(ids[0]) then c else Change(c, ids[0], MarkFailed), ids[1..], healthy)
  }

  function RetryOne(c: Config, id: Id, a: Answer): Config {
    match a
    case CircuitOpen => c
    case Mounted => Change(Change(c, id, MarkReconnecting), id, MarkMounted)
    case Refused(message) => Change(Change(c, id, MarkReconnecting), id, (m: Mount) => UpdateStatus(m, Error(message)))
  }

  function RetryAll(c: Config, ids: seq<Id>, answer: Id -> Answer): Config {
    if ids == [] then c else RetryAll(RetryOne(c, ids[0], answer(ids[0])), ids[1..], answer)
  }

  /** The mounts of a snapshot that fail their check become failed; nothing else changes. */
  lemma {:induction false} CheckAllAt(c: Config, ids: seq<Id>, healthy: Id -> bool, id: Id)
    requires Distinct(ids)
    ensures var d := CheckAll(c, ids, healthy);
            d.Keys == c.Keys
            && (id in c ==> d[id] == if id in ids && !healthy(id) then c[id].(status := Failed) else c[id])
    decreases |ids|
  {
    if ids != [] {
      var next := if healthy(ids[0]) then c else Change(c, ids[0], MarkFailed);
      CheckAllAt(next, ids[1..], healthy, id);
      assert ids[0] !in ids[1..];
      assert id in ids <==> id == ids[0] || id in ids[1..];
    }
  }

  /** Each mount of the snapshot is tried once: it is active with a zero count, in error with one more attempt, or
      untouched behind an open circuit. The others stay as they are. */
  lemma {:induction false} RetryAllAt(c: Config, ids: seq<Id>, answer: Id -> Answer, id: Id)
    requires Distinct(ids)
    ensures var d := RetryAll(c, ids, answer);
            d.Keys == c.Keys
            && (id in c ==>
                  d[id] == if id !in ids || answer(id).CircuitOpen? then c[id]
                           else if answer(id).Mounted? then Mount(c[id].enabled, Active, 0)
                           else Mount(c[id].enabled, Error(answer(id).message), c[id].attempts + 1))
    decreases |ids|
  {
    if ids != [] {
      RetryAllAt(RetryOne(c, ids[0], answer(ids[0])), ids[1..], answer, id);
      assert ids[0] !in ids[1..];
      assert id in ids <==> id == ids[0] || id in ids[1..];
    }
  }

  // ---- the passes ------------------------------------------------------------------------------------

  /** The shared configuration: a record for each id. Times come from the caller. */
  class ConfigStore {
    var mounts: map<Id, MountConfig>

    /** No two ids share a record. */
    ghost predicate Valid()
      reads this
    {
      forall i, j :: i in mounts && j in mounts && i != j ==> mounts[i] != mounts[j]
    }

    ghost function Values(): Config
      reads this, mounts.Values
    {
      map id | id in mounts :: mounts[id].Value()
    }

    constructor ()
      ensures Valid() && Values() == map[]
    {
      mounts := map[];
    }

    method AddMount(id: Id, record: MountConfig)
      requires Valid() && record !in mounts.Values
      modifies this
      ensures Valid() && mounts == old(mounts)[id := record]
      ensures Values() == old(Values())[id := record.Value()]
    {
      mounts := mounts[id := record];
    }

    method RemoveMount(id: Id)
      requires Valid()
      modifies this
      ensures Valid() && mounts == old(mounts) - {id}
      ensures Values() == old(Values()) - {id}
    {
      mounts := mounts - {id};
    }

    /** Reads a snapshot of the mounts passing the filter, in the arbitrary order of the hash map. */
    method TakeSnapshot(filter: Mount -> bool) returns (ids: seq<Id>)
      ensures Snapshot(Values(), ids, filter)
    {
      ids := [];
      var rest := set id | id in mounts && filter(mounts[id].Value());
      while rest != {}
        invariant forall id :: id in mounts && filter(mounts[id].Value()) <==> id in rest || id in ids
        invariant Distinct(ids) && forall id :: id in ids ==> id !in rest
        decreases rest
      {
        var id :| id in rest;
        ids := ids + [id];
        rest := rest - {id};
      }
    }

    /** The locked section for a mount that failed its check */
    method FailMount(id: Id, now: int)
      requires Valid()
      modifies mounts.Values
      ensures Valid() && Values() == Change(old(Values()), id, MarkFailed)
    {
      if id in mounts {
        var record := mounts[id];
        record.SetStatus(Failed, now, now);
      }
    }

    /** `check_mount_health` */
    method CheckMountHealth(healthy: Id -> bool, now: int) returns (ghost ids: seq<Id>)
      requires Valid()
      modifies mounts.Values
      ensures Snapshot(old(Values()), ids, IsActive)
      ensures Valid() && Values() == CheckAll(old(Values()), ids, healthy)
    {
      hide Values;
      var snapshot := TakeSnapshot(IsActive);
      ids := snapshot;
      var i := 0;
      while i < |snapshot|
        invariant 0 <= i <= |snapshot| && Valid()
        invariant CheckAll(Values(), snapshot[i..], healthy) == CheckAll(old(Values()), snapshot, healthy)
      {
        assert snapshot[i..][1..] == snapshot[i + 1..];
        if !healthy(snapshot[i]) {
          FailMount(snapshot[i], now);
        }
        i := i + 1;
      }
    }

    /** One mount queued for reconnection */
    method Reconnect(id: Id, answer: Answer, now: int)
      requires Valid()
      modifies mounts.Values
      ensures Valid() && Values() == RetryOne(old(Values()), id, answer)
    {
      if answer.CircuitOpen? || id !in mounts {
        return;
      }
      var record := mounts[id];
      record.BeginReconnecting(now, now);
      match answer
      case Mounted => record.FinishMounting(now, now);
      case Refused(message) => record.SetStatus(Error(message), now, now);
    }

    /** `attempt_reconnections`: of the failed mounts, those whose delay has passed are tried in turn. */
    method AttemptReconnections(due: Id -> bool, answer: Id -> Answer, now: int) returns (ghost ids: seq<Id>)
      requires Valid()
      modifies mounts.Values
      ensures Distinct(ids)
      ensures forall id :: id in ids <==> id in old(Values()) && Retryable(old(Values())[id]) && due(id)
      ensures Valid() && Values() == RetryAll(old(Values()), ids, answer)
    {
      var failed := TakeSnapshot(Retryable);
      var queue := [];
      var i := 0;
      while i < |failed|
        invariant 0 <= i <= |failed|
        invariant Distinct(queue) && forall id :: id in queue <==> id in failed[..i] && due(id)
      {
        if due(failed[i]) {
          queue := queue + [failed[i]];
        }
        i := i + 1;
      }
      assert failed[..i] == failed;
      ids := queue;
      i := 0;
      while i < |queue|
        invariant 0 <= i <= |queue| && Valid()
        invariant RetryAll(Values(), queue[i..], answer) == RetryAll(old(Values()), queue, answer)
      {
        assert queue[i..][1..] == queue[i + 1..];
        Reconnect(queue[i], answer(queue[i]), now);
        i := i + 1;
      }
    }
  }

  // ---- passes as uninterrupted runs ----------------------------------------------------------------

  function CheckSteps(ids: seq<Id>, healthy: Id -> bool): seq<Step> {
    if ids == [] then [CheckEnds(true)] else [CheckEnds(healthy(ids[0]))] + CheckSteps(ids[1..], healthy)
  }

  function RetrySteps(ids: seq<Id>, answer: Id -> Answer): seq<Step> {
    if ids == [] then [RetryBlocked]
    else
      (match answer(ids[0])
       case CircuitOpen => [RetryBlocked]
       case Mounted => [RetryBegins, RetryEnds(true, "")]
       case Refused(message) => [RetryBegins, RetryEnds(false, message)])
      + RetrySteps(ids[1..], answer)
  }

  lemma RunsThrough(s: State, step: Step, rest: seq<Step>)
    requires Next(s, step).Some? && Runs(Next(s, step).value, rest)
    ensures Runs(s, [step] + rest) && Final(s, [step] + rest) == Final(Next(s, step).value, rest)
  {
    assert ([step] + rest)[1..] == rest;
  }

  /** The health pass, uninterrupted, takes the monitoring task through its checks to this result. */
  lemma {:induction false} CheckPassRuns(c: Config, ids: seq<Id>, rs: seq<Request>, healthy: Id -> bool)
    ensures var s := State(c, Checking(ids), rs);
            Runs(s, CheckSteps(ids, healthy))
            && Final(s, CheckSteps(ids, healthy)) == State(CheckAll(c, ids, healthy), Checked, rs)
    decreases |ids|
  {
    var s := State(c, Checking(ids), rs);
    if ids == [] {
      RunsThrough(s, CheckEnds(true), []);
      assert [CheckEnds(true)] + [] == [CheckEnds(true)];
    } else {
      var next := if healthy(ids[0]) then c else Change(c, ids[0], MarkFailed);
      CheckPassRuns(next, ids[1..], rs, healthy);
      assert Next(s, CheckEnds(healthy(ids[0]))) == Some(State(next, Checking(ids[1..]), rs));
      RunsThrough(s, CheckEnds(healthy(ids[0])), CheckSteps(ids[1..], healthy));
    }
  }

  /** The reconnection pass likewise. */
  lemma {:induction false} RetryPassRuns(c: Config, ids: seq<Id>, rs: seq<Request>, answer: Id -> Answer)
    ensures var s := State(c, Retrying(ids), rs);
            Runs(s, RetrySteps(ids, answer))
            && Final(s, RetrySteps(ids, answer)) == State(RetryAll(c, ids, answer), Waiting, rs)
    decreases |ids|
  {
    var s := State(c, Retrying(ids), rs);
    if ids == [] {
      RunsThrough(s, RetryBlocked, []);
      assert [RetryBlocked] + [] == [RetryBlocked];
    } else {
      var id, rest := ids[0], RetrySteps(ids[1..], answer);
      RetryPassRuns(RetryOne(c, id, answer(id)), ids[1..], rs, answer);
      if answer(id) == CircuitOpen {
        RunsThrough(s, RetryBlocked, rest);
      } else {
        var begun := State(Change(c, id, MarkReconnecting), Remounting(id, ids[1..]), rs);
        var end := if answer(id) == Mounted then RetryEnds(true, "") else RetryEnds(false, answer(id).message);
        assert Next(begun, end) == Some(State(RetryOne(c, id, answer(id)), Retrying(ids[1..]), rs));
        RunsThrough(begun, end, rest);
        assert Next(s, RetryBegins) == Some(begun);
        RunsThrough(s, RetryBegins, [end] + rest);
        assert [RetryBegins] + ([end] + rest) == [RetryBegins, end] + rest;
      }
    }
  }
}
