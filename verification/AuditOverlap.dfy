/** Overlapping calls of `log_event` with chaining on. A call takes the previous hash, writes its own hash and
    pushes its event under three separate lock acquisitions, so other calls can come in between. */
module AuditOverlap {
  import opened Wrappers
  import opened Sequences
  import opened AuditChain

  /** How far a call has come: the event is to be processed, it names a predecessor, its hash is the kept one, or
      it is pushed, or its processing failed. */
  datatype Call = Asked(event: Event) | Linking(event: Event) | Stamped(event: Event) | Finished

  /** The shared fields, all calls ever made, and an observer: every event ever pushed. */
  datatype Shared = Shared(buffer: seq<Event>, lastHash: Option<Hash>, calls: seq<Call>, pushed: seq<Event>)

  const IDLE := Shared([], None, [], [])

  /** Processing hashes the event before it reads the kept hash; signing and encrypting can fail after that. */
  datatype Step = Ask(event: Event) | ReadHash(k: nat) | Fail(k: nat) | WriteHash(k: nat) | Push(k: nat)

  /** One step of one call; a step whose turn it is not changes nothing. */
  function Next(s: Shared, size: nat, step: Step): Shared {
    match step
    case Ask(event) => s.(calls := s.calls + [Asked(event)])
    case ReadHash(k) =>
      if k < |s.calls| && s.calls[k].Asked? then
        s.(calls := s.calls[k := Linking(s.calls[k].event.(previousHash := s.lastHash))])
      else s
    case Fail(k) =>
      if k < |s.calls| && s.calls[k].Linking? then s.(calls := s.calls[k := Finished]) else s
    case WriteHash(k) =>
      if k < |s.calls| && s.calls[k].Linking? then
        s.(lastHash := Some(s.calls[k].event.hash), calls := s.calls[k := Stamped(s.calls[k].event)])
      else s
    case Push(k) =>
      if k < |s.calls| && s.calls[k].Stamped? then
        var e := s.calls[k].event;
        s.(buffer := LastN(s.buffer + [e], size), pushed := s.pushed + [e], calls := s.calls[k := Finished])
      else s
  }

  function Run(size: nat, steps: seq<Step>): Shared {
    if steps == [] then IDLE else Next(Run(size, steps[..|steps| - 1]), size, steps[|steps| - 1])
  }

  /** The call holds a predecessor that its event has not followed into the buffer yet. */
  predicate InFlight(c: Call) {
    c.Linking? || c.Stamped?
  }

  ghost predicate NoneInFlight(calls: seq<Call>) {
    forall k :: 0 <= k < |calls| ==> !InFlight(calls[k])
  }

  /** No call reads the kept hash while another one is between its reading and its push. */
  ghost predicate Exclusive(size: nat, steps: seq<Step>)
    decreases |steps|
  {
    steps == [] ||
    (var s, step := Run(size, steps[..|steps| - 1]), steps[|steps| - 1];
     && Exclusive(size, steps[..|steps| - 1])
     && (step.ReadHash? && step.k < |s.calls| && s.calls[step.k].Asked? ==> NoneInFlight(s.calls)))
  }

  function Newest(events: seq<Event>): Option<Hash> {
    if events == [] then None else Some(events[|events| - 1].hash)
  }

  /** At most one call is in flight, its event names the newest pushed event, and the kept hash is that of the
      one or the other. */
  ghost predicate Orderly(s: Shared) {
    && Linked(s.pushed)
    && (forall j, k :: 0 <= j < k < |s.calls| ==> !InFlight(s.calls[j]) || !InFlight(s.calls[k]))
    && (forall k :: 0 <= k < |s.calls| && InFlight(s.calls[k]) ==> s.calls[k].event.previousHash == Newest(s.pushed))
    && (forall k :: 0 <= k < |s.calls| && s.calls[k].Stamped? ==> s.lastHash == Some(s.calls[k].event.hash))
    && ((forall k :: 0 <= k < |s.calls| ==> !s.calls[k].Stamped?) ==> s.lastHash == Newest(s.pushed))
  }

  lemma LinkedSnoc(events: seq<Event>, e: Event)
    requires Linked(events) && (events != [] ==> e.previousHash == Newest(events))
    ensures Linked(events + [e])
  {
  }

  lemma PushIsOrderly(s: Shared, size: nat, k: nat)
    requires Orderly(s) && k < |s.calls| && s.calls[k].Stamped?
    ensures Orderly(Next(s, size, Push(k)))
  {
    LinkedSnoc(s.pushed, s.calls[k].event);
    hide Linked;
  }

  lemma StepIsOrderly(s: Shared, size: nat, step: Step)
    requires Orderly(s)
    requires step.ReadHash? && step.k < |s.calls| && s.calls[step.k].Asked? ==> NoneInFlight(s.calls)
    ensures Orderly(Next(s, size, step))
  {
    match step
    case Push(k) =>
      if k < |s.calls| && s.calls[k].Stamped? { PushIsOrderly(s, size, k); }
    case WriteHash(k) =>
      hide Linked, Newest;
      if k < |s.calls| && s.calls[k].Linking? {
        var t := Next(s, size, step);
        assert t.calls[k].Stamped?;
      }
    case _ =>
      hide Linked, Newest;
      var t := Next(s, size, step);
      if forall k :: 0 <= k < |t.calls| ==> !t.calls[k].Stamped? {
        forall k | 0 <= k < |s.calls| ensures !s.calls[k].Stamped? {
          assert !t.calls[k].Stamped?;
        }
      }
  }

  lemma {:induction false} BufferIsLastPushed(size: nat, steps: seq<Step>)
    ensures Run(size, steps).buffer == LastN(Run(size, steps).pushed, size)
  {
    hide LastN;
    if steps == [] {
      LastNOfNone<Event>(size);
    } else {
      var s, step := Run(size, steps[..|steps| - 1]), steps[|steps| - 1];
      BufferIsLastPushed(size, steps[..|steps| - 1]);
      if step.Push? && step.k < |s.calls| && s.calls[step.k].Stamped? {
        LastNSnoc(s.pushed, s.calls[step.k].event, size);
      }
    }
  }

  /** The event was asked for, up to the predecessor it names. */
  ghost predicate Known(steps: seq<Step>, e: Event) {
    exists a :: Ask(a) in steps && e == a.(previousHash := e.previousHash)
  }

  ghost predicate AllKnown(s: Shared, steps: seq<Step>) {
    && (forall e :: e in s.pushed ==> Known(steps, e))
    && (forall c :: c in s.calls && !c.Finished? ==> Known(steps, c.event))
  }

  lemma KnownStays(steps: seq<Step>, step: Step, e: Event)
    requires Known(steps, e)
    ensures Known(steps + [step], e)
  {
    var a :| Ask(a) in steps && e == a.(previousHash := e.previousHash);
    assert Ask(a) in steps + [step];
  }

  lemma StepKeepsKnown(s: Shared, size: nat, steps: seq<Step>, step: Step)
    requires AllKnown(s, steps)
    ensures AllKnown(Next(s, size, step), steps + [step])
  {
    var t, longer := Next(s, size, step), steps + [step];
    forall e | e in t.pushed ensures Known(longer, e) {
      if e in s.pushed {
        KnownStays(steps, step, e);
      } else {
        assert step.Push? && s.calls[step.k] in s.calls && e == s.calls[step.k].event;
        KnownStays(steps, step, e);
      }
    }
    forall c | c in t.calls && !c.Finished? ensures Known(longer, c.event) {
      if c in s.calls {
        KnownStays(steps, step, c.event);
      } else if step.Ask? {
        assert c == Asked(step.event) && Ask(step.event) in longer;
        assert c.event == step.event.(previousHash := c.event.previousHash);
      } else {
        var was := s.calls[step.k];
        assert was in s.calls && c.event == was.event.(previousHash := c.event.previousHash);
        KnownRelinked(steps, was.event, c.event);
        KnownStays(steps, step, c.event);
      }
    }
  }

  lemma KnownRelinked(steps: seq<Step>, was: Event, e: Event)
    requires Known(steps, was) && e == was.(previousHash := e.previousHash)
    ensures Known(steps, e)
  {
    var a :| Ask(a) in steps && was == a.(previousHash := was.previousHash);
    assert e == a.(previousHash := e.previousHash);
  }

  /** Under any schedule every pushed event is one that was asked for, hash and all, but for its predecessor. */
  lemma {:induction false} PushedAreKnown(size: nat, steps: seq<Step>)
    ensures forall e :: e in Run(size, steps).pushed ==> Known(steps, e)
    ensures AllKnown(Run(size, steps), steps)
  {
    hide Known, Next;
    if steps != [] {
      var init, step := steps[..|steps| - 1], steps[|steps| - 1];
      PushedAreKnown(size, init);
      StepKeepsKnown(Run(size, init), size, init, step);
      assert init + [step] == steps;
    }
  }

  lemma {:induction false} ExclusiveIsOrderly(size: nat, steps: seq<Step>)
    requires Exclusive(size, steps)
    ensures Orderly(Run(size, steps))
    decreases |steps|
  {
    hide Orderly, Next;
    if steps == [] {
      IdleIsOrderly();
    } else {
      ExclusiveIsOrderly(size, steps[..|steps| - 1]);
      StepIsOrderly(Run(size, steps[..|steps| - 1]), size, steps[|steps| - 1]);
    }
  }

  lemma IdleIsOrderly()
    ensures Orderly(IDLE)
  {
  }

  /** Whatever else overlaps: as long as no call reads the kept hash while another is between its reading and its
      push, everything ever pushed is one chain, and so is the buffer. */
  lemma ExclusiveIsLinked(size: nat, steps: seq<Step>)
    requires Exclusive(size, steps)
    ensures Linked(Run(size, steps).pushed) && Linked(Run(size, steps).buffer)
  {
    hide Run, Exclusive;
    ExclusiveIsOrderly(size, steps);
    BufferIsLastPushed(size, steps);
    LastIsLinked(Run(size, steps).pushed, size);
  }

  // ---- what overlapping costs ----------------------------------------------------------------------------

  /** Both calls read the kept hash before either writes its own. */
  function Overlap(a: Event, b: Event): seq<Step> {
    [Ask(a), Ask(b), ReadHash(0), ReadHash(1), WriteHash(0), WriteHash(1), Push(0), Push(1)]
  }

  lemma {:induction false} RunSnoc(size: nat, steps: seq<Step>, step: Step)
    ensures Run(size, steps + [step]) == Next(Run(size, steps), size, step)
  {
    assert (steps + [step])[..|steps|] == steps;
  }

  /** Two overlapping calls name the same predecessor, so the second event does not follow the first. */
  lemma OverlapForks(a: Event, b: Event)
    ensures var s := Run(10, Overlap(a, b));
            |s.buffer| == 2 && s.buffer[0].previousHash == s.buffer[1].previousHash && !Linked(s.buffer)
  {
    OverlapRuns(a, b);
    var s := Run(10, Overlap(a, b));
    hide Run;
    assert s.buffer[1].previousHash != Some(s.buffer[0].hash);
  }

  lemma OverlapRuns(a: Event, b: Event)
    ensures Run(10, Overlap(a, b)).buffer == [a.(previousHash := None), b.(previousHash := None)]
  {
    var a', b' := a.(previousHash := None), b.(previousHash := None);
    var s0 := [Ask(a), Ask(b)];
    RunSnoc(10, [], Ask(a));
    RunSnoc(10, [Ask(a)], Ask(b));
    RunSnoc(10, s0, ReadHash(0));
    RunSnoc(10, s0 + [ReadHash(0)], ReadHash(1));
    var s1 := s0 + [ReadHash(0)] + [ReadHash(1)];
    assert [] + [Ask(a)] == [Ask(a)] && [Ask(a)] + [Ask(b)] == s0;
    assert Run(10, s1) == Shared([], None, [Linking(a'), Linking(b')], []);
    RunSnoc(10, s1, WriteHash(0));
    RunSnoc(10, s1 + [WriteHash(0)], WriteHash(1));
    var s2 := s1 + [WriteHash(0)] + [WriteHash(1)];
    assert Run(10, s2) == Shared([], Some(b'.hash), [Stamped(a'), Stamped(b')], []);
    RunSnoc(10, s2, Push(0));
    RunSnoc(10, s2 + [Push(0)], Push(1));
    assert s2 + [Push(0)] + [Push(1)] == Overlap(a, b);
  }
}
