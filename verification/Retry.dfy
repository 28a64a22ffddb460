/** `RetryHandler`: the retry loop and the per-mount circuit breaker. Time is an integer, operation
    outcomes and the backoff crate's answers are scripts chosen by the environment. */
module Retry {
  import opened Wrappers

  datatype RetryPolicy = RetryPolicy(maxAttempts: nat)

  datatype Breaker = Breaker(failureCount: nat, lastFailure: Option<int>, isOpen: bool, openedAt: Option<int>,
                             threshold: nat, timeout: nat)

  const DEFAULT_POLICY := RetryPolicy(5)
  const OPEN_SECONDS: nat := 60

  function NewBreaker(threshold: nat, timeout: nat): Breaker {
    Breaker(0, None, false, None, threshold, timeout)
  }

  function RecordSuccess(b: Breaker): Breaker {
    b.(failureCount := 0, isOpen := false, openedAt := None)
  }

  /** `record_failure` reads the clock twice. */
  function RecordFailure(b: Breaker, now: int, later: int): Breaker {
    var c := b.(failureCount := b.failureCount + 1, lastFailure := Some(now));
    if c.failureCount >= c.threshold && !c.isOpen then c.(isOpen := true, openedAt := Some(later)) else c
  }

  /** A clock that has gone back counts as an elapsed timeout. */
  predicate ShouldAllow(b: Breaker, now: int) {
    || !b.isOpen
    || (b.openedAt.Some? && (now < b.openedAt.value || now - b.openedAt.value >= b.timeout))
  }

  /** What the environment answers in one turn of the loop: when the breaker is checked, what the
      operation returns, when a failure is recorded, and whether the backoff grants another delay. */
  datatype Turn<T> = Turn(checkAt: int, result: Result<T, string>, failedAt: int, openedAt: int, delay: bool)

  datatype LastError = CircuitOpen | OperationFailed(message: string)

  /** What happens on one mount, in order. */
  datatype Event =
    | Succeeded(at: int)
    | Failed(at: int, failedAt: int, recordedAt: int)
    | Blocked(at: int)
    | WasReset

  datatype Outcome<T> = Outcome(value: Option<T>, attempts: nat, lastError: Option<LastError>, breaker: Breaker,
                                log: seq<Event>)

  /** The `loop` of `execute_with_retry` after `attempts` attempts */
  function Turns<T>(b: Breaker, max: nat, env: nat -> Turn<T>, attempts: nat): Outcome<T>
    decreases if attempts < max then max - attempts else 0
  {
    var n := attempts + 1;
    var t := env(attempts);
    if !ShouldAllow(b, t.checkAt) then Outcome(None, n, Some(CircuitOpen), b, [Blocked(t.checkAt)])
    else if t.result.Ok? then Outcome(Some(t.result.value), n, None, RecordSuccess(b), [Succeeded(t.checkAt)])
    else
      var failed := RecordFailure(b, t.failedAt, t.openedAt);
      var e := Failed(t.checkAt, t.failedAt, t.openedAt);
      if n >= max || !t.delay then Outcome(None, n, Some(OperationFailed(t.result.error)), failed, [e])
      else
        var rest := Turns(failed, max, env, n);
        rest.(log := [e] + rest.log)
  }

  // ---- accounting within one call --------------------------------------------------------------

  predicate IsOperation(e: Event) {
    e.Succeeded? || e.Failed?
  }

  function Operations(log: seq<Event>): nat {
    if log == [] then 0
    else Operations(log[..|log| - 1]) + (if IsOperation(log[|log| - 1]) then 1 else 0)
  }

  lemma {:induction false} OperationsCons(e: Event, log: seq<Event>)
    ensures Operations([e] + log) == (if IsOperation(e) then 1 else 0) + Operations(log)
  {
    if log == [] {
      assert [e][..0] == [];
    } else {
      OperationsCons(e, log[..|log| - 1]);
      assert ([e] + log)[..|log|] == [e] + log[..|log| - 1];
    }
  }

  /** The event of a turn under this script */
  predicate IsTurn<T>(e: Event, t: Turn<T>) {
    match e
    case Succeeded(at) => at == t.checkAt && t.result.Ok?
    case Failed(at, failedAt, recordedAt) =>
      at == t.checkAt && failedAt == t.failedAt && recordedAt == t.openedAt && t.result.Err?
    case Blocked(at) => at == t.checkAt
    case WasReset => false
  }

  /** The turns of a call follow its script from `attempts` on: between two turns a delay has been granted. */
  ghost predicate Follows<T>(log: seq<Event>, env: nat -> Turn<T>, attempts: nat) {
    forall i: nat :: i < |log| ==> IsTurn(log[i], env(attempts + i)) && (i + 1 < |log| ==> env(attempts + i).delay)
  }

  lemma FollowsCons<T>(e: Event, log: seq<Event>, env: nat -> Turn<T>, attempts: nat)
    requires IsTurn(e, env(attempts)) && env(attempts).delay && Follows(log, env, attempts + 1)
    ensures Follows([e] + log, env, attempts)
  {
    var longer := [e] + log;
    forall i: nat | i < |longer|
      ensures IsTurn(longer[i], env(attempts + i)) && (i + 1 < |longer| ==> env(attempts + i).delay)
    {
      if i > 0 {
        assert longer[i] == log[i - 1] && env(attempts + 1 + (i - 1)) == env(attempts + i);
      }
    }
  }

  /** What a call that ends with this event, in this turn of its script, comes back with */
  predicate EndsWith<T(==)>(r: Outcome<T>, max: nat, e: Event, last: Turn<T>) {
    match e
    case Succeeded(_) => last.result.Ok? && r.value == Some(last.result.value) && r.lastError == None
    case Failed(_, _, _) =>
      && r.value == None && (r.attempts >= max || !last.delay)
      && last.result.Err? && r.lastError == Some(OperationFailed(last.result.error))
    case Blocked(_) => r.value == None && r.lastError == Some(CircuitOpen)
    case WasReset => false
  }

  /** For every script: the turns follow it; what comes back is the value or the message of the last turn; and the
      loop stops only when it succeeds, is blocked, has made its attempts or is granted no further delay. */
  lemma {:induction false} ScriptIsFollowed<T>(b: Breaker, max: nat, env: nat -> Turn<T>, attempts: nat)
    ensures var r := Turns(b, max, env, attempts);
            && r.attempts >= 1 && r.log != [] && Follows(r.log, env, attempts)
            && EndsWith(r, max, r.log[|r.log| - 1], env(r.attempts - 1))
    decreases if attempts < max then max - attempts else 0
  {
    hide Follows, RecordFailure, ShouldAllow;
    var n, t := attempts + 1, env(attempts);
    var r := Turns(b, max, env, attempts);
    if ShouldAllow(b, t.checkAt) && t.result.Err? && n < max && t.delay {
      var failed, e := RecordFailure(b, t.failedAt, t.openedAt), Failed(t.checkAt, t.failedAt, t.openedAt);
      ScriptIsFollowed(failed, max, env, n);
      var rest := Turns(failed, max, env, n);
      FollowsCons(e, rest.log, env, attempts);
      assert r == rest.(log := [e] + rest.log);
      hide Turns;
      assert r.log[|r.log| - 1] == rest.log[|rest.log| - 1];
    } else {
      OneTurnFollows(r.log, env, attempts);
    }
  }

  lemma OneTurnFollows<T>(log: seq<Event>, env: nat -> Turn<T>, attempts: nat)
    requires |log| == 1 && IsTurn(log[0], env(attempts))
    ensures Follows(log, env, attempts)
  {
    forall i: nat | i < |log| ensures IsTurn(log[i], env(attempts + i)) {
      assert attempts + i == attempts;
    }
  }

  /** For every script: the loop stops within max(1, max) attempts; every turn but the last is a failed
      operation; a value comes back exactly when the last turn is a success; the turns are the attempts,
      and the operations are one fewer exactly when the breaker blocked the last turn. */
  lemma {:induction false} Accounting<T>(b: Breaker, max: nat, env: nat -> Turn<T>, attempts: nat)
    ensures var r := Turns(b, max, env, attempts); var last := |r.log| - 1;
            && attempts < r.attempts && r.attempts <= (if attempts + 1 > max then attempts + 1 else max)
            && |r.log| == r.attempts - attempts
            && (forall i :: 0 <= i < last ==> r.log[i].Failed?)
            && (r.value.Some? <==> r.log[last].Succeeded?)
            && (r.lastError.None? <==> r.value.Some?)
            && (r.lastError == Some(CircuitOpen) <==> r.log[last].Blocked?)
            && !r.log[last].WasReset?
            && Operations(r.log) == r.attempts - attempts - (if r.log[last].Blocked? then 1 else 0)
    decreases if attempts < max then max - attempts else 0
  {
    var n := attempts + 1;
    var t := env(attempts);
    var r := Turns(b, max, env, attempts);
    if ShouldAllow(b, t.checkAt) && t.result.Err? && n < max && t.delay {
      var failed := RecordFailure(b, t.failedAt, t.openedAt);
      Accounting(failed, max, env, n);
      OperationsCons(Failed(t.checkAt, t.failedAt, t.openedAt), Turns(failed, max, env, n).log);
    } else {
      assert r.log[..0] == [];
      assert Operations(r.log[..0]) == 0;
    }
  }

  // ---- the history of one mount ------------------------------------------------------------------

  /** Consecutive failures at the end of a history; blocked turns do not count either way. */
  function Streak(log: seq<Event>): nat {
    if log == [] then 0
    else
      var init := log[..|log| - 1];
      match log[|log| - 1]
      case Succeeded(_) => 0
      case WasReset => 0
      case Blocked(_) => Streak(init)
      case Failed(_, _, _) => Streak(init) + 1
  }

  /** When the current streak reached `budget` failures, if it has. */
  function OpenSince(log: seq<Event>, budget: nat): Option<int> {
    if log == [] then None
    else
      var init := log[..|log| - 1];
      match log[|log| - 1]
      case Succeeded(_) => None
      case WasReset => None
      case Blocked(_) => OpenSince(init, budget)
      case Failed(_, _, recordedAt) => if Streak(log) == budget then Some(recordedAt) else OpenSince(init, budget)
  }

  /** When an operation last failed */
  function LastFailure(log: seq<Event>): Option<int> {
    if log == [] then None
    else if log[|log| - 1].Failed? then Some(log[|log| - 1].failedAt)
    else LastFailure(log[..|log| - 1])
  }

  /** The number of failures a breaker tolerates before it opens: its threshold, but at least one. */
  function Budget(b: Breaker): nat {
    if b.threshold == 0 then 1 else b.threshold
  }

  /** The breaker's fields say what the history says. */
  predicate Tracks(b: Breaker, log: seq<Event>) {
    && b.failureCount == Streak(log)
    && (b.isOpen <==> Streak(log) >= Budget(b))
    && b.openedAt == OpenSince(log, Budget(b))
    && b.lastFailure == LastFailure(log)
    && (b.isOpen <==> b.openedAt.Some?)
  }

  predicate InWindow(log: seq<Event>, budget: nat, timeout: nat, now: int) {
    var since := OpenSince(log, budget);
    since.Some? && since.value <= now < since.value + timeout
  }

  /** Turns are blocked exactly inside the window after the streak filled the budget. */
  ghost predicate BlockedExactly(log: seq<Event>, budget: nat, timeout: nat) {
    forall j :: 0 <= j < |log| && !log[j].WasReset? ==>
      (log[j].Blocked? <==> InWindow(log[..j], budget, timeout, log[j].at))
  }

  /** One call made on a mount, under the policy of that moment, or a reset. */
  datatype Call<T> = Execute(max: nat, env: nat -> Turn<T>) | Reset

  function After<T>(b: Breaker, c: Call<T>): (r: (Breaker, seq<Event>)) {
    match c
    case Execute(max, env) => var r := Turns(b, max, env, 0); (r.breaker, r.log)
    case Reset => (RecordSuccess(b), [WasReset])
  }

  /** The breaker and the history after a series of calls */
  function History<T>(b: Breaker, calls: seq<Call<T>>): (r: (Breaker, seq<Event>)) {
    if calls == [] then (b, [])
    else
      var before := History(b, calls[..|calls| - 1]);
      var step := After(before.0, calls[|calls| - 1]);
      (step.0, before.1 + step.1)
  }

  lemma TracksSnoc(b: Breaker, log: seq<Event>, e: Event, after: Breaker)
    requires Tracks(b, log)
    requires match e
             case Succeeded(_) => after == RecordSuccess(b)
             case WasReset => after == RecordSuccess(b)
             case Blocked(_) => after == b
             case Failed(_, now, t) => after == RecordFailure(b, now, t)
    ensures Tracks(after, log + [e]) && after.threshold == b.threshold && after.timeout == b.timeout
  {
    assert (log + [e])[..|log|] == log;
  }

  lemma BlockedSnoc(log: seq<Event>, e: Event, budget: nat, timeout: nat)
    requires BlockedExactly(log, budget, timeout)
    requires !e.WasReset? ==> (e.Blocked? <==> InWindow(log, budget, timeout, e.at))
    ensures BlockedExactly(log + [e], budget, timeout)
  {
    var longer := log + [e];
    forall j | 0 <= j < |longer| && !longer[j].WasReset?
      ensures longer[j].Blocked? <==> InWindow(longer[..j], budget, timeout, longer[j].at)
    {
      assert longer[..j] == log[..j];
      if j == |log| {
        assert log[..j] == log;
      }
    }
  }

  lemma {:induction false} TurnsTrack<T>(b: Breaker, log: seq<Event>, max: nat, env: nat -> Turn<T>, attempts: nat)
    requires Tracks(b, log) && BlockedExactly(log, Budget(b), b.timeout)
    ensures var r := Turns(b, max, env, attempts);
            && Tracks(r.breaker, log + r.log) && r.breaker.threshold == b.threshold && r.breaker.timeout == b.timeout
            && BlockedExactly(log + r.log, Budget(b), b.timeout)
    decreases if attempts < max then max - attempts else 0
  {
    hide BlockedExactly;
    var n := attempts + 1;
    var t := env(attempts);
    if !ShouldAllow(b, t.checkAt) {
      TracksSnoc(b, log, Blocked(t.checkAt), b);
      BlockedSnoc(log, Blocked(t.checkAt), Budget(b), b.timeout);
    } else if t.result.Ok? {
      TracksSnoc(b, log, Succeeded(t.checkAt), RecordSuccess(b));
      BlockedSnoc(log, Succeeded(t.checkAt), Budget(b), b.timeout);
    } else {
      var e := Failed(t.checkAt, t.failedAt, t.openedAt);
      var failed := RecordFailure(b, t.failedAt, t.openedAt);
      TracksSnoc(b, log, e, failed);
      BlockedSnoc(log, e, Budget(b), b.timeout);
      if n < max && t.delay {
        TurnsTrack(failed, log + [e], max, env, n);
        var rest := Turns(failed, max, env, n);
        assert log + ([e] + rest.log) == log + [e] + rest.log;
      }
    }
  }

  /** Over any series of calls and resets on a mount, however failures split across calls, the breaker
      tracks the history, and a turn is blocked if and only if it falls in the window. */
  lemma {:induction false} HistoryIsTracked<T>(threshold: nat, timeout: nat, calls: seq<Call<T>>)
    ensures var (b, log) := History(NewBreaker(threshold, timeout), calls);
            && b.threshold == threshold && b.timeout == timeout
            && Tracks(b, log) && BlockedExactly(log, Budget(b), timeout)
  {
    hide BlockedExactly;
    var start := NewBreaker(threshold, timeout);
    if calls == [] {
      NothingBlocked(Budget(start), timeout);
    } else {
      HistoryIsTracked(threshold, timeout, calls[..|calls| - 1]);
      var (b, log) := History(start, calls[..|calls| - 1]);
      match calls[|calls| - 1]
      case Execute(max, env) =>
        TurnsTrack(b, log, max, env, 0);
      case Reset =>
        TracksSnoc(b, log, WasReset, RecordSuccess(b));
        BlockedSnoc(log, WasReset, Budget(b), timeout);
    }
  }

  lemma NothingBlocked(budget: nat, timeout: nat)
    ensures BlockedExactly([], budget, timeout)
  {
  }

  // ---- the failure budget --------------------------------------------------------------------------

  function Failures(log: seq<Event>): nat {
    if log == [] then 0
    else Failures(log[..|log| - 1]) + (if log[|log| - 1].Failed? then 1 else 0)
  }

  lemma {:induction false} StreakIsFailures(log: seq<Event>)
    requires forall i :: 0 <= i < |log| ==> log[i].Failed? || log[i].Blocked?
    ensures Streak(log) == Failures(log)
  {
    if log != [] {
      StreakIsFailures(log[..|log| - 1]);
    }
  }

  /** Without a success or a reset, the breaker is open exactly once `max(1, threshold)` operations have
      failed, in whatever calls. */
  lemma FailureBudget<T>(threshold: nat, timeout: nat, calls: seq<Call<T>>)
    requires var log := History(NewBreaker(threshold, timeout), calls).1;
             forall i :: 0 <= i < |log| ==> log[i].Failed? || log[i].Blocked?
    ensures var (b, log) := History(NewBreaker(threshold, timeout), calls);
            && b.failureCount == Failures(log)
            && (b.isOpen <==> Failures(log) >= (if threshold == 0 then 1 else threshold))
  {
    HistoryIsTracked(threshold, timeout, calls);
    StreakIsFailures(History(NewBreaker(threshold, timeout), calls).1);
  }

  // ---- the quiet period ------------------------------------------------------------------------------

  function End(e: Event): int
    requires !e.WasReset?
  {
    if e.Failed? then e.recordedAt else e.at
  }

  /** The clock never goes back. */
  ghost predicate Clocked(log: seq<Event>) {
    && (forall i :: 0 <= i < |log| && !log[i].WasReset? ==> log[i].at <= End(log[i]))
    && (forall i, j :: 0 <= i < j < |log| && !log[i].WasReset? && !log[j].WasReset? ==> End(log[i]) <= log[j].at)
  }

  /** The failure at `i` fills the budget. */
  predicate Opens(log: seq<Event>, i: nat, budget: nat) {
    i < |log| && log[i].Failed? && Streak(log[..i + 1]) == budget
  }

  lemma {:induction false} StillOpen(log: seq<Event>, i: nat, j: nat, budget: nat)
    requires Opens(log, i, budget) && budget >= 1 && i < j <= |log|
    requires forall k :: i < k < j ==> log[k].Failed? || log[k].Blocked?
    ensures OpenSince(log[..j], budget) == Some(log[i].recordedAt) && Streak(log[..j]) >= budget
  {
    assert log[..j][..j - 1] == log[..j - 1];
    if j > i + 1 {
      StillOpen(log, i, j - 1, budget);
    }
  }

  /** Under a clock that never goes back, no operation runs from the failure that fills the budget until
      the timeout has passed, unless the breaker is reset; and a success can close it only after that. */
  lemma {:induction false} QuietPeriod(log: seq<Event>, i: nat, j: nat, budget: nat, timeout: nat)
    requires Clocked(log) && BlockedExactly(log, budget, timeout)
    requires Opens(log, i, budget) && budget >= 1 && i < j < |log| && IsOperation(log[j])
    requires forall k :: i < k < j ==> !log[k].WasReset?
    ensures log[j].at >= log[i].recordedAt + timeout
    decreases j
  {
    if k :| i < k < j && log[k].Succeeded? {
      QuietPeriod(log, i, k, budget, timeout);
      assert End(log[k]) <= log[j].at;
    } else {
      StillOpen(log, i, j, budget);
      assert !InWindow(log[..j], budget, timeout, log[j].at);
      assert End(log[i]) <= log[j].at;
    }
  }

  /** After the timeout every attempt is admitted until a success closes the breaker: outside the window
      no turn is blocked, and inside it every turn is. */
  lemma AdmittedAfterTimeout(log: seq<Event>, i: nat, j: nat, budget: nat, timeout: nat)
    requires Clocked(log) && BlockedExactly(log, budget, timeout)
    requires Opens(log, i, budget) && budget >= 1 && i < j < |log| && !log[j].WasReset?
    requires forall k :: i < k < j ==> log[k].Failed? || log[k].Blocked?
    ensures log[j].Blocked? <==> log[j].at < log[i].recordedAt + timeout
  {
    StillOpen(log, i, j, budget);
    assert End(log[i]) <= log[j].at;
  }

  /** The same for calls: take any series of calls and resets on one mount whose clock never goes back, and
      a failure that fills the budget. Up to the next reset, no operation is admitted before the timeout has
      passed; and up to the next success or reset, each attempt is blocked exactly before that time. */
  lemma QuietCalls<T>(threshold: nat, timeout: nat, calls: seq<Call<T>>, i: nat, j: nat)
    requires var (b, log) := History(NewBreaker(threshold, timeout), calls);
             && Clocked(log) && Opens(log, i, Budget(b)) && i < j < |log|
             && forall k :: i < k <= j ==> !log[k].WasReset?
    ensures var (b, log) := History(NewBreaker(threshold, timeout), calls);
            && (IsOperation(log[j]) ==> log[j].at >= log[i].recordedAt + timeout)
            && ((forall k :: i < k < j ==> !log[k].Succeeded?) ==>
                  (log[j].Blocked? <==> log[j].at < log[i].recordedAt + timeout))
  {
    HistoryIsTracked(threshold, timeout, calls);
    var (b, log) := History(NewBreaker(threshold, timeout), calls);
    hide Clocked, BlockedExactly, Opens, Tracks;
    if IsOperation(log[j]) {
      QuietPeriod(log, i, j, Budget(b), timeout);
    }
    if forall k :: i < k < j ==> !log[k].Succeeded? {
      AdmittedAfterTimeout(log, i, j, Budget(b), timeout);
    }
  }

  // ---- the handler -------------------------------------------------------------------------------------

  function PolicyOf(policies: map<string, RetryPolicy>, id: string): RetryPolicy {
    if id in policies then policies[id] else DEFAULT_POLICY
  }

  /** The breaker a call on `id` finds: an existing one, or a new one sized by the policy of the moment. */
  function BreakerOf(policies: map<string, RetryPolicy>, breakers: map<string, Breaker>, id: string): Breaker {
    if id in breakers then breakers[id] else NewBreaker(PolicyOf(policies, id).maxAttempts, OPEN_SECONDS)
  }

  /** What is asked of the handler, one request at a time */
  datatype Request<!T> =
    | Assign(id: string, policy: RetryPolicy)
    | Run(id: string, env: nat -> Turn<T>)
    | Clear(id: string)

  datatype Handler = Handler(policies: map<string, RetryPolicy>, breakers: map<string, Breaker>)

  const NEW := Handler(map[], map[])

  /** The handler after one request, and what happened on the mount meanwhile */
  function Served<T>(h: Handler, r: Request<T>): (Handler, seq<Event>) {
    match r
    case Assign(id, policy) => (h.(policies := h.policies[id := policy]), [])
    case Run(id, env) =>
      var o := Turns(BreakerOf(h.policies, h.breakers, id), PolicyOf(h.policies, id).maxAttempts, env, 0);
      (h.(breakers := h.breakers[id := o.breaker]), o.log)
    case Clear(id) =>
      if id in h.breakers then (h.(breakers := h.breakers[id := RecordSuccess(h.breakers[id])]), [WasReset])
      else (h, [])
  }

  function TurnEvent<T>(b: Breaker, t: Turn<T>): Event {
    if !ShouldAllow(b, t.checkAt) then Blocked(t.checkAt)
    else if t.result.Ok? then Succeeded(t.checkAt)
    else Failed(t.checkAt, t.failedAt, t.openedAt)
  }

  function AfterTurn<T>(b: Breaker, t: Turn<T>): Breaker {
    if !ShouldAllow(b, t.checkAt) then b
    else if t.result.Ok? then RecordSuccess(b)
    else RecordFailure(b, t.failedAt, t.openedAt)
  }

  lemma EventOfTurn<T>(b: Breaker, t: Turn<T>)
    ensures TurnEvent(b, t).Succeeded? ==> t.result.Ok?
    ensures TurnEvent(b, t).Failed? ==> t.result.Err?
    ensures !TurnEvent(b, t).WasReset?
  {
  }

  /** What is left of the call leads to `goal`, after the turns logged so far. */
  ghost predicate LeadsTo<T>(goal: Outcome<T>, log: seq<Event>, b: Breaker, max: nat, env: nat -> Turn<T>,
                             attempts: nat)
  {
    var rest := Turns(b, max, env, attempts);
    goal == rest.(log := log + rest.log)
  }

  lemma NothingLogged<T>(b: Breaker, max: nat, env: nat -> Turn<T>)
    ensures LeadsTo(Turns(b, max, env, 0), [], b, max, env, 0)
  {
    var goal := Turns(b, max, env, 0);
    assert [] + goal.log == goal.log;
  }

  lemma TurnBlocked<T>(goal: Outcome<T>, log: seq<Event>, b: Breaker, max: nat, env: nat -> Turn<T>, attempts: nat)
    requires LeadsTo(goal, log, b, max, env, attempts) && TurnEvent(b, env(attempts)).Blocked?
    ensures var t := env(attempts);
            goal == Outcome(None, attempts + 1, Some(CircuitOpen), AfterTurn(b, t), log + [TurnEvent(b, t)])
  {
  }

  lemma TurnSucceeded<T>(goal: Outcome<T>, log: seq<Event>, b: Breaker, max: nat, env: nat -> Turn<T>, attempts: nat)
    requires LeadsTo(goal, log, b, max, env, attempts) && TurnEvent(b, env(attempts)).Succeeded?
    ensures var t := env(attempts);
            && t.result.Ok?
            && goal == Outcome(Some(t.result.value), attempts + 1, None, AfterTurn(b, t), log + [TurnEvent(b, t)])
  {
  }

  lemma TurnFailed<T>(goal: Outcome<T>, log: seq<Event>, b: Breaker, max: nat, env: nat -> Turn<T>, attempts: nat)
    requires LeadsTo(goal, log, b, max, env, attempts) && TurnEvent(b, env(attempts)).Failed?
    ensures var t := env(attempts); var after := log + [TurnEvent(b, t)];
            t.result.Err? &&
            if attempts + 1 >= max || !t.delay then
              goal == Outcome(None, attempts + 1, Some(OperationFailed(t.result.error)), AfterTurn(b, t), after)
            else LeadsTo(goal, after, AfterTurn(b, t), max, env, attempts + 1)
  {
    var t := env(attempts);
    if attempts + 1 < max && t.delay {
      var rest := Turns(AfterTurn(b, t), max, env, attempts + 1);
      var e := Failed(t.checkAt, t.failedAt, t.openedAt);
      assert log + ([e] + rest.log) == log + [e] + rest.log;
    }
  }

  ghost predicate OnlyTouches(before: map<string, Breaker>, after: map<string, Breaker>, id: string) {
    forall k :: k != id ==> (k in before <==> k in after) && (k in before ==> before[k] == after[k])
  }

  lemma TouchesNothing(a: map<string, Breaker>, id: string)
    ensures OnlyTouches(a, a, id)
  {
  }

  lemma StillOnlyTouches(a: map<string, Breaker>, b: map<string, Breaker>, c: map<string, Breaker>, id: string)
    requires OnlyTouches(a, b, id) && OnlyTouches(b, c, id)
    ensures OnlyTouches(a, c, id)
  {
  }

  lemma ServedIs<T>(h: Handler, after: map<string, Breaker>, id: string, env: nat -> Turn<T>, goal: Outcome<T>)
    requires goal == Turns(BreakerOf(h.policies, h.breakers, id), PolicyOf(h.policies, id).maxAttempts, env, 0)
    requires OnlyTouches(h.breakers, after, id) && id in after && after[id] == goal.breaker
    ensures (Handler(h.policies, after), goal.log) == Served(h, Run(id, env))
  {
    hide Turns, BreakerOf, PolicyOf;
    assert after == h.breakers[id := goal.breaker];
  }

  class RetryHandler {
    var policies: map<string, RetryPolicy>
    var breakers: map<string, Breaker>

    function State(): Handler
      reads this
    {
      Handler(policies, breakers)
    }

    constructor ()
      ensures State() == NEW
    {
      policies, breakers := map[], map[];
    }

    method SetPolicy(id: string, policy: RetryPolicy)
      modifies this`policies
      ensures policies == old(policies)[id := policy]
    {
      policies := policies[id := policy];
    }

    method GetCircuitBreaker(id: string) returns (b: Breaker)
      modifies this`breakers
      ensures b == BreakerOf(policies, old(breakers), id)
      ensures breakers == old(breakers)[id := b]
      ensures id in old(breakers) ==> breakers == old(breakers)
      ensures id !in old(breakers) ==>
                && b.threshold == (if id in policies then policies[id].maxAttempts else 5) && b.timeout == 60
                && b.failureCount == 0 && !b.isOpen && b.lastFailure == None && b.openedAt == None
    {
      if id !in breakers {
        breakers := breakers[id := NewBreaker(PolicyOf(policies, id).maxAttempts, OPEN_SECONDS)];
      }
      b := breakers[id];
    }

    method UpdateCircuitBreaker(id: string, success: bool, now: int, later: int) returns (known: bool)
      modifies this`breakers
      ensures known == (id in old(breakers))
      ensures breakers == if !known then old(breakers)
                          else old(breakers)[id := if success then RecordSuccess(old(breakers)[id])
                                                   else RecordFailure(old(breakers)[id], now, later)]
    {
      known := id in breakers;
      if known {
        var b := breakers[id];
        breakers := breakers[id := if success then RecordSuccess(b) else RecordFailure(b, now, later)];
      }
    }

    /** The part of one loop turn that touches the breaker: check it, run the operation, record the
        outcome. */
    method TakeTurn<T>(id: string, turn: Turn<T>) returns (e: Event)
      modifies this`breakers
      ensures var b := BreakerOf(policies, old(breakers), id);
              && e == TurnEvent(b, turn)
              && OnlyTouches(old(breakers), breakers, id)
              && id in breakers && BreakerOf(policies, breakers, id) == breakers[id] == AfterTurn(b, turn)
    {
      var breaker := GetCircuitBreaker(id);
      if !ShouldAllow(breaker, turn.checkAt) {
        return Blocked(turn.checkAt);
      }
      if turn.result.Ok? {
        var _ := UpdateCircuitBreaker(id, true, turn.failedAt, turn.openedAt);
        return Succeeded(turn.checkAt);
      }
      var _ := UpdateCircuitBreaker(id, false, turn.failedAt, turn.openedAt);
      return Failed(turn.checkAt, turn.failedAt, turn.openedAt);
    }

    /** `execute_with_retry`: the loop computes `Turns` on the mount's own breaker and touches no other. */
    method ExecuteWithRetry<T>(id: string, env: nat -> Turn<T>)
      returns (value: Option<T>, attempts: nat, lastError: Option<LastError>, ghost log: seq<Event>)
      modifies this`breakers
      ensures id in breakers && OnlyTouches(old(breakers), breakers, id)
      ensures (State(), log) == Served(old(State()), Run(id, env))
      ensures Outcome(value, attempts, lastError, breakers[id], log)
              == Turns(BreakerOf(policies, old(breakers), id), PolicyOf(policies, id).maxAttempts, env, 0)
    {
      hide Turns, LeadsTo, AfterTurn, TurnEvent, BreakerOf, PolicyOf, OnlyTouches, Served;
      var max := PolicyOf(policies, id).maxAttempts;
      ghost var current := BreakerOf(policies, breakers, id);
      ghost var goal := Turns(current, max, env, 0);
      attempts, log := 0, [];
      NothingLogged(current, max, env);
      TouchesNothing(breakers, id);
      while true
        invariant attempts <= max
        invariant current == BreakerOf(policies, breakers, id)
        invariant OnlyTouches(old(breakers), breakers, id)
        invariant LeadsTo(goal, log, current, max, env, attempts)
        decreases max + 1 - attempts
      {
        var turn := env(attempts);
        ghost var before, earlier, breaker := breakers, log, current;
        var e := TakeTurn(id, turn);
        attempts := attempts + 1;
        StillOnlyTouches(old(breakers), before, breakers, id);
        current, log := AfterTurn(current, turn), log + [e];
        if e.Blocked? {
          TurnBlocked(goal, earlier, breaker, max, env, attempts - 1);
          ServedIs(old(State()), breakers, id, env, goal);
          return None, attempts, Some(CircuitOpen), log;
        }
        if e.Succeeded? {
          TurnSucceeded(goal, earlier, breaker, max, env, attempts - 1);
          ServedIs(old(State()), breakers, id, env, goal);
          return Some(turn.result.value), attempts, None, log;
        }
        EventOfTurn(breaker, turn);
        TurnFailed(goal, earlier, breaker, max, env, attempts - 1);
        lastError := Some(OperationFailed(turn.result.error));
        if attempts >= max || !turn.delay {
          ServedIs(old(State()), breakers, id, env, goal);
          return None, attempts, lastError, log;
        }
      }
    }

    /** `reset` closes an existing breaker. */
    method ResetBreaker(id: string)
      modifies this`breakers
      ensures breakers == if id in old(breakers) then old(breakers)[id := RecordSuccess(old(breakers)[id])]
                          else old(breakers)
    {
      var _ := UpdateCircuitBreaker(id, true, 0, 0);
    }
  }
}
