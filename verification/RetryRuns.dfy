/** The retry handler over any series of requests for any mounts: what holds of a breaker's history holds of each
    mount's own breaker, with the numbers that the handler gives it. */
module RetryRuns {
  import opened Wrappers
  import opened Retry

  /** The handler after a series of requests */
  function Serving<T>(rs: seq<Request<T>>): Handler {
    if rs == [] then NEW else Served(Serving(rs[..|rs| - 1]), rs[|rs| - 1]).0
  }

  /** What happened on one mount */
  function LogOf<T>(rs: seq<Request<T>>, id: string): seq<Event> {
    if rs == [] then []
    else
      var init, r := rs[..|rs| - 1], rs[|rs| - 1];
      LogOf(init, id) + if r.id == id then Served(Serving(init), r).1 else []
  }

  /** The attempts that the policy of a mount allows: the last one assigned, 5 without any */
  function Allowed<T>(rs: seq<Request<T>>, id: string): nat {
    if rs == [] then 5
    else
      var r := rs[|rs| - 1];
      if r.Assign? && r.id == id then r.policy.maxAttempts else Allowed(rs[..|rs| - 1], id)
  }

  /** The threshold of a mount's breaker: what its policy allowed when it was first called */
  function ThresholdOf<T>(rs: seq<Request<T>>, id: string): Option<nat> {
    if rs == [] then None
    else
      var init, r := rs[..|rs| - 1], rs[|rs| - 1];
      var before := ThresholdOf(init, id);
      if before.None? && r.Run? && r.id == id then Some(Allowed(init, id)) else before
  }

  /** The calls and resets that reached the breaker of a mount */
  function CallsOn<T>(rs: seq<Request<T>>, id: string): seq<Call<T>> {
    if rs == [] then []
    else
      var init, r := rs[..|rs| - 1], rs[|rs| - 1];
      CallsOn(init, id)
      + if r.id != id || r.Assign? || (r.Clear? && ThresholdOf(init, id).None?) then []
        else if r.Run? then [Execute(Allowed(init, id), r.env)] else [Reset]
  }

  lemma {:induction false} PolicyIsAllowed<T>(rs: seq<Request<T>>, id: string)
    ensures PolicyOf(Serving(rs).policies, id).maxAttempts == Allowed(rs, id)
  {
    hide Turns;
    if rs != [] {
      PolicyIsAllowed(rs[..|rs| - 1], id);
    }
  }

  lemma HistorySnoc<T>(b: Breaker, calls: seq<Call<T>>, c: Call<T>)
    ensures var (before, log) := History(b, calls);
            History(b, calls + [c]) == (After(before, c).0, log + After(before, c).1)
  {
    assert (calls + [c])[..|calls|] == calls;
  }

  /** The breaker of a mount has its history from this threshold on, or there is none and nothing has happened. */
  ghost predicate HasHistory<T>(h: Handler, id: string, threshold: Option<nat>, calls: seq<Call<T>>, log: seq<Event>) {
    if threshold.None? then id !in h.breakers && calls == [] && log == []
    else id in h.breakers && (h.breakers[id], log) == History(NewBreaker(threshold.value, 60), calls)
  }

  lemma OtherMount<T>(h: Handler, r: Request<T>, id: string)
    requires r.id != id || r.Assign?
    ensures var t := Served(h, r).0;
            (id in t.breakers <==> id in h.breakers) && (id in h.breakers ==> t.breakers[id] == h.breakers[id])
    ensures r.Assign? ==> Served(h, r).1 == []
  {
    hide Turns;
  }

  lemma OwnMount<T>(h: Handler, r: Request<T>, threshold: Option<nat>, calls: seq<Call<T>>, log: seq<Event>)
    requires HasHistory(h, r.id, threshold, calls, log) && !r.Assign?
    ensures var t, allowed := Served(h, r).0, PolicyOf(h.policies, r.id).maxAttempts;
            HasHistory(t, r.id, if threshold.None? && r.Run? then Some(allowed) else threshold,
                       calls + (if r.Run? then [Execute(allowed, r.env)]
                                else if threshold.None? then [] else [Reset]),
                       log + Served(h, r).1)
  {
    var allowed := PolicyOf(h.policies, r.id).maxAttempts;
    hide Turns, History;
    if r.Run? {
      var size := if threshold.None? then allowed else threshold.value;
      HistoryNone<T>(NewBreaker(size, 60));
      HistorySnoc(NewBreaker(size, 60), calls, Execute(allowed, r.env));
    } else if threshold.Some? {
      HistorySnoc<T>(NewBreaker(threshold.value, 60), calls, Reset);
    }
  }

  lemma HistoryNone<T>(b: Breaker)
    ensures History<T>(b, []) == (b, [])
  {
  }

  /** For every series of requests and every mount: its breaker exists once it has been called, was sized by the policy
      it had then, opens for 60 seconds, and has the history of its own calls and resets, whatever happened on other
      mounts. */
  lemma {:induction false} EachHasItsHistory<T>(rs: seq<Request<T>>, id: string)
    ensures HasHistory(Serving(rs), id, ThresholdOf(rs, id), CallsOn(rs, id), LogOf(rs, id))
  {
    hide HasHistory, Served;
    if rs == [] {
      NothingServed<T>(id);
    } else {
      var init, r := rs[..|rs| - 1], rs[|rs| - 1];
      EachHasItsHistory(init, id);
      PolicyIsAllowed(init, id);
      if r.id == id && !r.Assign? {
        OwnMount(Serving(init), r, ThresholdOf(init, id), CallsOn(init, id), LogOf(init, id));
        assert CallsOn(init, id) + [] == CallsOn(init, id);
      } else {
        OtherMount(Serving(init), r, id);
        Unchanged(Serving(init), Serving(rs), id, ThresholdOf(init, id), CallsOn(init, id), LogOf(init, id));
        assert CallsOn(init, id) + [] == CallsOn(init, id) && LogOf(init, id) + [] == LogOf(init, id);
      }
    }
  }

  lemma NothingServed<T>(id: string)
    ensures HasHistory<T>(NEW, id, None, [], [])
  {
  }

  lemma Unchanged<T>(h: Handler, t: Handler, id: string, threshold: Option<nat>, calls: seq<Call<T>>, log: seq<Event>)
    requires HasHistory(h, id, threshold, calls, log)
    requires (id in t.breakers <==> id in h.breakers) && (id in h.breakers ==> t.breakers[id] == h.breakers[id])
    ensures HasHistory(t, id, threshold, calls, log)
  {
    hide History;
  }

  lemma {:induction false} AllowedByDefault<T>(rs: seq<Request<T>>, id: string)
    requires forall i :: 0 <= i < |rs| ==> !(rs[i].Assign? && rs[i].id == id)
    ensures Allowed(rs, id) == 5
  {
    if rs != [] {
      AllowedByDefault(rs[..|rs| - 1], id);
    }
  }

  /** A mount without a policy of its own gets a threshold of five. */
  lemma {:induction false} DefaultThreshold<T>(rs: seq<Request<T>>, id: string)
    requires forall i :: 0 <= i < |rs| ==> !(rs[i].Assign? && rs[i].id == id)
    ensures ThresholdOf(rs, id).Some? ==> ThresholdOf(rs, id) == Some(5)
  {
    if rs != [] {
      DefaultThreshold(rs[..|rs| - 1], id);
      AllowedByDefault(rs[..|rs| - 1], id);
    }
  }

  /** The failure budget on the handler: without a success or a reset on this mount its breaker is open exactly once as
      many operations have failed on it as its policy allowed when it was first called, but at least one. */
  lemma BudgetOfMount<T>(rs: seq<Request<T>>, id: string, threshold: nat)
    requires ThresholdOf(rs, id) == Some(threshold)
    requires forall i :: 0 <= i < |LogOf(rs, id)| ==> LogOf(rs, id)[i].Failed? || LogOf(rs, id)[i].Blocked?
    ensures id in Serving(rs).breakers
    ensures Serving(rs).breakers[id].isOpen <==> Failures(LogOf(rs, id)) >= (if threshold == 0 then 1 else threshold)
  {
    EachHasItsHistory(rs, id);
    hide Serving, LogOf, CallsOn, ThresholdOf, History;
    FailureBudget(threshold, 60, CallsOn(rs, id));
  }

  /** The quiet minute on the handler: from the failure that fills the budget of a mount, under a clock that does not go
      back and up to the next reset, no operation of this mount runs for 60 seconds; and up to its next success, its
      turns are blocked exactly during these. */
  lemma QuietMinute<T>(rs: seq<Request<T>>, id: string, threshold: nat, i: nat, j: nat)
    requires ThresholdOf(rs, id) == Some(threshold)
    requires var log := LogOf(rs, id);
             && Clocked(log) && Opens(log, i, if threshold == 0 then 1 else threshold) && i < j < |log|
             && forall k :: i < k <= j ==> !log[k].WasReset?
    ensures var log := LogOf(rs, id);
            && (IsOperation(log[j]) ==> log[j].at >= log[i].recordedAt + 60)
            && ((forall k :: i < k < j ==> !log[k].Succeeded?) ==>
                  (log[j].Blocked? <==> log[j].at < log[i].recordedAt + 60))
  {
    EachHasItsHistory(rs, id);
    HistoryIsTracked(threshold, 60, CallsOn(rs, id));
    hide Serving, LogOf, CallsOn, ThresholdOf, History, Clocked, Opens, BlockedExactly;
    QuietCalls(threshold, 60, CallsOn(rs, id), i, j);
  }
}
