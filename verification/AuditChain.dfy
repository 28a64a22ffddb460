/** The in-memory buffer of `AuditLogger`: what `log_event` keeps, in which order, and how the events are
    linked. Hashes are opaque values; filters, hashing, signing, encryption and the log file answer as the
    environment likes. */
module AuditChain {
  import opened Wrappers
  import opened Sequences

  type Hash = string

  datatype Event = Event(id: string, severity: nat, previousHash: Option<Hash>, hash: Hash)

  datatype AuditConfig = AuditConfig(bufferSize: nat, enableChaining: bool, minSeverity: nat, realTime: bool)

  /** One call of `log_event`: whether a rate permit is granted, whether the filters let the event pass, the
      hash (None when hashing fails), whether signing and encrypting succeed, whether the file is written. */
  datatype Attempt = Attempt(event: Event, permit: bool, passes: bool, hash: Option<Hash>, sealed: bool, written: bool)

  datatype AuditError = NoPermit | NotProcessed | NotWritten

  datatype Logger = Logger(buffer: seq<Event>, lastHash: Option<Hash>, counter: nat)

  const NEW := Logger([], None, 0)

  predicate Accepts(cfg: AuditConfig, a: Attempt) {
    a.permit && a.event.severity >= cfg.minSeverity && a.passes && a.hash.Some? && a.sealed
  }

  /** The event as `process_event` completes it */
  function Processed(cfg: AuditConfig, lastHash: Option<Hash>, a: Attempt): Event
    requires a.hash.Some?
  {
    a.event.(hash := a.hash.value, previousHash := if cfg.enableChaining then lastHash else a.event.previousHash)
  }

  function Log(st: Logger, cfg: AuditConfig, a: Attempt): Logger {
    if !Accepts(cfg, a) then st
    else
      var e := Processed(cfg, st.lastHash, a);
      Logger(LastN(st.buffer + [e], cfg.bufferSize), if cfg.enableChaining then Some(e.hash) else st.lastHash,
             st.counter + 1)
  }

  function Answer(cfg: AuditConfig, a: Attempt): Result<(), AuditError> {
    if !a.permit then Err(NoPermit)
    else if a.event.severity < cfg.minSeverity || !a.passes then Ok(())
    else if a.hash.None? || !a.sealed then Err(NotProcessed)
    else if cfg.realTime && !a.written then Err(NotWritten)
    else Ok(())
  }

  function Run(cfg: AuditConfig, attempts: seq<Attempt>): Logger {
    if attempts == [] then NEW else Log(Run(cfg, attempts[..|attempts| - 1]), cfg, attempts[|attempts| - 1])
  }

  /** The events that were ever accepted, as processing completed them with the hash kept at that moment */
  function AcceptedEvents(cfg: AuditConfig, attempts: seq<Attempt>): seq<Event> {
    if attempts == [] then []
    else
      var init, a := attempts[..|attempts| - 1], attempts[|attempts| - 1];
      var before := AcceptedEvents(cfg, init);
      if Accepts(cfg, a) then before + [Processed(cfg, Run(cfg, init).lastHash, a)] else before
  }

  /** Each event names the hash of the one before it. */
  ghost predicate Linked(events: seq<Event>) {
    forall i, j :: 0 <= i && j == i + 1 && j < |events| ==> events[j].previousHash == Some(events[i].hash)
  }

  /** The kept hash is that of the newest accepted event, so the links that processing puts in from it join
      the accepted events to one chain. */
  lemma {:induction false} AcceptedAreLinked(cfg: AuditConfig, attempts: seq<Attempt>)
    requires cfg.enableChaining
    ensures var events := AcceptedEvents(cfg, attempts);
            && Run(cfg, attempts).lastHash == (if events == [] then None else Some(events[|events| - 1].hash))
            && Linked(events) && (events != [] ==> events[0].previousHash == None)
  {
    if attempts != [] {
      AcceptedAreLinked(cfg, attempts[..|attempts| - 1]);
    }
  }

  /** The attempts that pass every stage */
  function Passing(cfg: AuditConfig, attempts: seq<Attempt>): (passed: seq<Attempt>)
    ensures forall a :: a in passed ==> a.hash.Some?
  {
    if attempts == [] then []
    else
      var before, a := Passing(cfg, attempts[..|attempts| - 1]), attempts[|attempts| - 1];
      if a.permit && a.event.severity >= cfg.minSeverity && a.passes && a.hash.Some? && a.sealed then before + [a]
      else before
  }

  /** Each event is its attempt's event with the hash computed for it; with chaining it names the hash computed for the
      attempt before it. */
  ghost predicate Carries(cfg: AuditConfig, events: seq<Event>, passed: seq<Attempt>) {
    |events| == |passed| && forall i: nat :: i < |events| ==> CarriesAt(cfg, events, passed, i)
  }

  predicate CarriesAt(cfg: AuditConfig, events: seq<Event>, passed: seq<Attempt>, i: nat)
    requires i < |events| && i < |passed|
  {
    var e, a := events[i], passed[i];
    && e.id == a.event.id && e.severity == a.event.severity && a.hash == Some(e.hash)
    && e.previousHash == if !cfg.enableChaining then a.event.previousHash
                         else if i == 0 then None else passed[i - 1].hash
  }

  function HashOfLast(passed: seq<Attempt>): Option<Hash> {
    if passed == [] then None else passed[|passed| - 1].hash
  }

  lemma CarriesSnoc(cfg: AuditConfig, events: seq<Event>, passed: seq<Attempt>, a: Attempt)
    requires Carries(cfg, events, passed) && a.hash.Some?
    ensures Carries(cfg, events + [Processed(cfg, HashOfLast(passed), a)], passed + [a])
  {
    var e, after := Processed(cfg, HashOfLast(passed), a), passed + [a];
    var longer := events + [e];
    forall i: nat | i < |longer| ensures CarriesAt(cfg, longer, after, i) {
      assert i > 0 ==> after[i - 1] == passed[i - 1];
      if i < |events| {
        assert CarriesAt(cfg, events, passed, i);
        assert longer[i] == events[i] && after[i] == passed[i];
      }
    }
  }

  /** The accepted events, from the attempts alone: they carry the hashes computed for the attempts that pass every
      stage, in order, and with chaining the kept hash is that of the last of these. */
  lemma {:induction false} AcceptedCarryTheirHashes(cfg: AuditConfig, attempts: seq<Attempt>)
    ensures var passed := Passing(cfg, attempts);
            && Carries(cfg, AcceptedEvents(cfg, attempts), passed)
            && Run(cfg, attempts).lastHash == if cfg.enableChaining then HashOfLast(passed) else None
  {
    hide Carries, LastN;
    if attempts == [] {
      NothingCarried(cfg);
    } else {
      var init, a := attempts[..|attempts| - 1], attempts[|attempts| - 1];
      AcceptedCarryTheirHashes(cfg, init);
      if Accepts(cfg, a) {
        CarriesSnoc(cfg, AcceptedEvents(cfg, init), Passing(cfg, init), a);
      }
    }
  }

  lemma NothingCarried(cfg: AuditConfig)
    ensures Carries(cfg, [], [])
  {
  }

  /** What a call answers tells what became of its event, except that events filtered out are reported as logged: an
      event that could not be written to the file has been accepted all the same. */
  lemma AnswerTells(cfg: AuditConfig, st: Logger, a: Attempt)
    ensures Answer(cfg, a) == Err(NoPermit) <==> !a.permit
    ensures Answer(cfg, a) == Err(NotProcessed) <==>
              a.permit && a.event.severity >= cfg.minSeverity && a.passes && !(a.hash.Some? && a.sealed)
    ensures Answer(cfg, a) == Err(NotWritten) <==>
              Log(st, cfg, a).counter == st.counter + 1 && cfg.realTime && !a.written
    ensures Answer(cfg, a) == Ok(()) <==>
              || (a.permit && (a.event.severity < cfg.minSeverity || !a.passes))
              || (Log(st, cfg, a).counter == st.counter + 1 && (cfg.realTime ==> a.written))
    ensures Log(st, cfg, a).counter == st.counter ==> Log(st, cfg, a) == st
  {
  }

  lemma AcceptsHashed(cfg: AuditConfig, a: Attempt)
    requires Accepts(cfg, a)
    ensures a.hash.Some?
  {
  }

  /** Over any series of calls, filtered out, failing midway or failing to write, with chaining or without:
      the buffer is the last `bufferSize` accepted events, the counter is their number, and with chaining the
      kept hash is that of the newest accepted event, even once it has left the buffer. */
  lemma {:induction false} BufferIsSuffix(cfg: AuditConfig, attempts: seq<Attempt>)
    ensures var st := Run(cfg, attempts); var events := AcceptedEvents(cfg, attempts);
            && st.counter == |events|
            && st.buffer == LastN(events, cfg.bufferSize)
            && st.lastHash == if events == [] || !cfg.enableChaining then None else Some(events[|events| - 1].hash)
  {
    hide Accepts, LastN;
    if attempts == [] {
      LastNOfNone<Event>(cfg.bufferSize);
    } else {
      var before, a := attempts[..|attempts| - 1], attempts[|attempts| - 1];
      BufferIsSuffix(cfg, before);
      if Accepts(cfg, a) {
        AcceptsHashed(cfg, a);
        LastNSnoc(AcceptedEvents(cfg, before), Processed(cfg, Run(cfg, before).lastHash, a), cfg.bufferSize);
      }
    }
  }

  lemma LastIsLinked(events: seq<Event>, n: nat)
    requires Linked(events)
    ensures Linked(LastN(events, n))
  {
    var b := LastN(events, n);
    var d := |events| - |b|;
    forall i, j | 0 <= i && j == i + 1 && j < |b| ensures b[j].previousHash == Some(b[i].hash) {
      assert b[i] == events[d + i] && b[j] == events[d + j];
    }
  }

  /** With chaining on, the buffer itself is linked at all times. */
  lemma BufferIsLinked(cfg: AuditConfig, attempts: seq<Attempt>)
    requires cfg.enableChaining
    ensures Linked(Run(cfg, attempts).buffer)
  {
    hide Run, AcceptedEvents;
    BufferIsSuffix(cfg, attempts);
    AcceptedAreLinked(cfg, attempts);
    LastIsLinked(AcceptedEvents(cfg, attempts), cfg.bufferSize);
  }

  class AuditLogger {
    const config: AuditConfig
    var eventBuffer: seq<Event>
    var lastEventHash: Option<Hash>
    var eventCounter: nat

    function State(): Logger
      reads this
    {
      Logger(eventBuffer, lastEventHash, eventCounter)
    }

    constructor (config: AuditConfig)
      ensures State() == NEW && this.config == config
    {
      this.config := config;
      eventBuffer, lastEventHash, eventCounter := [], None, 0;
    }

    /** `log_event`, one call at a time */
    method LogEvent(a: Attempt) returns (r: Result<(), AuditError>)
      requires |eventBuffer| <= config.bufferSize
      modifies this
      ensures State() == Log(old(State()), config, a) && r == Answer(config, a)
      ensures |eventBuffer| <= config.bufferSize
    {
      if !a.permit {
        return Err(NoPermit);
      }
      if a.event.severity < config.minSeverity || !a.passes {
        return Ok(());
      }
      var processed := ProcessEvent(a);
      if processed.None? {
        return Err(NotProcessed);
      }
      eventBuffer := eventBuffer + [processed.value];
      ghost var pushed, dropped := eventBuffer, 0;
      while |eventBuffer| > config.bufferSize
        invariant dropped <= |pushed| && eventBuffer == pushed[dropped..]
        invariant dropped > 0 ==> |eventBuffer| >= config.bufferSize
        invariant lastEventHash == Log(old(State()), config, a).lastHash && eventCounter == old(eventCounter) + 1
        decreases |eventBuffer|
      {
        eventBuffer, dropped := eventBuffer[1..], dropped + 1;
      }
      if config.realTime && !a.written {
        return Err(NotWritten);
      }
      return Ok(());
    }

    /** `process_event`: a failure on the way leaves the chain as it was. */
    method ProcessEvent(a: Attempt) returns (e: Option<Event>)
      modifies this`lastEventHash, this`eventCounter
      ensures e.Some? <==> a.hash.Some? && a.sealed
      ensures e.None? ==> lastEventHash == old(lastEventHash) && eventCounter == old(eventCounter)
      ensures e.Some? ==>
                && e.value == Processed(config, old(lastEventHash), a)
                && e.value.hash == a.hash.value
                && e.value.id == a.event.id && e.value.severity == a.event.severity
                && e.value.previousHash == (if config.enableChaining then old(lastEventHash) else a.event.previousHash)
                && lastEventHash == (if config.enableChaining then Some(e.value.hash) else old(lastEventHash))
                && eventCounter == old(eventCounter) + 1
    {
      if a.hash.None? {
        return None;
      }
      var event := a.event.(hash := a.hash.value);
      if config.enableChaining {
        event := event.(previousHash := lastEventHash);
      }
      if !a.sealed {
        return None;
      }
      if config.enableChaining {
        lastEventHash := Some(event.hash);
      }
      eventCounter := eventCounter + 1;
      return Some(event);
    }
  }
}
