/** The lifecycle state machine of one mount. `transition` reads the state, writes it and records the change
    under three separate lock acquisitions, so calls interleave between them. */
module StateMachine {
  import opened Sequences

  datatype MountState = Unmounted | Mounting | Mounted | Failed | Unmounting

  /** Reasons, errors, time stamps and the mount id of an entry play no part in the control flow. */
  datatype Entry = Entry(from: MountState, to: MountState)

  const MAX_HISTORY: nat := 100

  predicate CanTransition(from: MountState, to: MountState) {
    match (from, to)
    case (Unmounted, Mounting) => true
    case (Mounting, Mounted) => true
    case (Mounting, Failed) => true
    case (Mounted, Unmounting) => true
    case (Mounted, Failed) => true
    case (Failed, Mounting) => true
    case (Failed, Unmounted) => true
    case (Unmounting, Unmounted) => true
    case (Unmounting, Failed) => true
    case (_, _) => from == to
  }

  /** How far a call of `transition` has come */
  datatype Call = Asked(to: MountState)
                | Checked(from: MountState, to: MountState)
                | Applied(from: MountState, to: MountState)
                | Finished

  /** The shared state, all calls ever made, and two observers: every state the machine held, and every entry
      ever recorded. */
  datatype Machine = Machine(state: MountState, history: seq<Entry>, calls: seq<Call>,
                             held: seq<MountState>, recorded: seq<Entry>)

  const START := Machine(Unmounted, [], [], [Unmounted], [])

  datatype Step = Ask(to: MountState) | Read(k: nat) | Write(k: nat) | Push(k: nat)

  /** One entry more, and the oldest out when there are too many */
  function Record(history: seq<Entry>, e: Entry): seq<Entry> {
    var longer := history + [e];
    if |longer| > MAX_HISTORY then longer[1..] else longer
  }

  /** One step of one call; a step whose turn it is not changes nothing. */
  function Next(m: Machine, step: Step): Machine {
    match step
    case Ask(to) => m.(calls := m.calls + [Asked(to)])
    case Read(k) =>
      if k < |m.calls| && m.calls[k].Asked? then
        var to := m.calls[k].to;
        m.(calls := m.calls[k := if CanTransition(m.state, to) then Checked(m.state, to) else Finished])
      else m
    case Write(k) =>
      if k < |m.calls| && m.calls[k].Checked? then
        m.(state := m.calls[k].to, held := m.held + [m.calls[k].to],
           calls := m.calls[k := Applied(m.calls[k].from, m.calls[k].to)])
      else m
    case Push(k) =>
      if k < |m.calls| && m.calls[k].Applied? then
        var e := Entry(m.calls[k].from, m.calls[k].to);
        m.(history := Record(m.history, e), recorded := m.recorded + [e], calls := m.calls[k := Finished])
      else m
  }

  function Run(m: Machine, steps: seq<Step>): Machine
    decreases |steps|
  {
    if steps == [] then m else Next(Run(m, steps[..|steps| - 1]), steps[|steps| - 1])
  }

  lemma {:induction false} RunAppend(m: Machine, a: seq<Step>, b: seq<Step>)
    ensures Run(m, a + b) == Run(Run(m, a), b)
    decreases |b|
  {
    if b == [] {
      assert a + b == a;
    } else {
      RunAppend(m, a, b[..|b| - 1]);
      assert (a + b)[..|a + b| - 1] == a + b[..|b| - 1];
    }
  }

  lemma RunFour(m: Machine, a: Step, b: Step, c: Step, d: Step)
    ensures Run(m, [a, b, c, d]) == Next(Next(Next(Next(m, a), b), c), d)
  {
    hide Next;
    assert [a, b, c, d][..3] == [a, b, c] && [a, b, c][..2] == [a, b] && [a, b][..1] == [a] && [a][..0] == [];
    assert Run(m, [a]) == Next(Run(m, []), a);
    assert Run(m, [a, b]) == Next(Run(m, [a]), b);
    assert Run(m, [a, b, c]) == Next(Run(m, [a, b]), c);
  }

  // ---- every interleaving ------------------------------------------------------------------------------

  ghost predicate Lawful(entries: seq<Entry>) {
    forall e :: e in entries ==> CanTransition(e.from, e.to)
  }

  /** Some state held earlier allows this one. */
  ghost predicate Justified(held: seq<MountState>, i: nat)
    requires i < |held|
  {
    exists j: nat :: j < i && CanTransition(held[j], held[i])
  }

  ghost predicate CallSound(held: seq<MountState>, c: Call) {
    c.Checked? || c.Applied? ==> c.from in held && CanTransition(c.from, c.to)
  }

  ghost predicate Inv(m: Machine) {
    && |m.held| > 0 && m.held[0] == Unmounted && m.state == m.held[|m.held| - 1]
    && (forall i: nat :: 0 < i < |m.held| ==> Justified(m.held, i))
    && (forall c :: c in m.calls ==> CallSound(m.held, c))
    && Lawful(m.recorded)
    && m.history == LastN(m.recorded, MAX_HISTORY)
  }

  lemma JustifiedStays(held: seq<MountState>, to: MountState, i: nat)
    requires i < |held| && Justified(held, i)
    ensures Justified(held + [to], i)
  {
    var j: nat :| j < i && CanTransition(held[j], held[i]);
    assert (held + [to])[j] == held[j] && (held + [to])[i] == held[i];
  }

  lemma WriteKeeps(m: Machine, k: nat)
    requires Inv(m) && k < |m.calls| && m.calls[k].Checked?
    ensures Inv(Next(m, Write(k)))
  {
    var n := Next(m, Write(k));
    var to := m.calls[k].to;
    assert m.calls[k] in m.calls;
    forall i: nat | 0 < i < |n.held| ensures Justified(n.held, i) {
      if i < |m.held| {
        JustifiedStays(m.held, to, i);
      } else {
        var j: nat :| j < |m.held| && m.held[j] == m.calls[k].from;
        assert n.held[j] == m.held[j] && n.held[i] == to;
      }
    }
    forall c | c in n.calls ensures CallSound(n.held, c) {
      assert c in m.calls || c == Applied(m.calls[k].from, to);
    }
  }

  lemma PushKeeps(m: Machine, k: nat)
    requires Inv(m) && k < |m.calls| && m.calls[k].Applied?
    ensures Inv(Next(m, Push(k)))
  {
    var n := Next(m, Push(k));
    assert m.calls[k] in m.calls;
    forall c | c in n.calls ensures CallSound(n.held, c) {
      assert c in m.calls || c == Finished;
    }
    RecordKeepsLast(m.recorded, Entry(m.calls[k].from, m.calls[k].to));
  }

  lemma RecordKeepsLast(recorded: seq<Entry>, e: Entry)
    ensures Record(LastN(recorded, MAX_HISTORY), e) == LastN(recorded + [e], MAX_HISTORY)
  {
  }

  lemma ReadKeeps(m: Machine, k: nat)
    requires Inv(m) && k < |m.calls| && m.calls[k].Asked?
    ensures Inv(Next(m, Read(k)))
  {
    var n := Next(m, Read(k));
    forall c | c in n.calls ensures CallSound(n.held, c) {
      assert c in m.calls || c == n.calls[k];
    }
  }

  lemma StepKeeps(m: Machine, step: Step)
    requires Inv(m)
    ensures Inv(Next(m, step))
  {
    match step
    case Ask(to) =>
    case Read(k) => if k < |m.calls| && m.calls[k].Asked? { ReadKeeps(m, k); }
    case Write(k) => if k < |m.calls| && m.calls[k].Checked? { WriteKeeps(m, k); }
    case Push(k) => if k < |m.calls| && m.calls[k].Applied? { PushKeeps(m, k); }
  }

  /** However calls interleave: every entry is a legal edge, the history is the last hundred entries in the
      order of recording, and each state held was allowed by one held earlier. */
  lemma {:induction false} EveryInterleavingIsLawful(steps: seq<Step>)
    ensures Inv(Run(START, steps))
    ensures var m := Run(START, steps); Lawful(m.history) && m.history == LastN(m.recorded, 100)
    decreases |steps|
  {
    if steps != [] {
      EveryInterleavingIsLawful(steps[..|steps| - 1]);
      StepKeeps(Run(START, steps[..|steps| - 1]), steps[|steps| - 1]);
    }
  }

  lemma {:induction false} MountingBefore(held: seq<MountState>, i: nat)
    requires i < |held| && held[0] == Unmounted && held[i] == Mounted
    requires forall k: nat :: 0 < k < |held| ==> Justified(held, k)
    ensures exists j: nat :: j < i && held[j] == Mounting
    decreases i
  {
    assert Justified(held, i);
    var j: nat :| j < i && CanTransition(held[j], held[i]);
    if held[j] == Mounted {
      MountingBefore(held, j);
    }
  }

  /** `Mounted` is never held before `Mounting` has been. */
  lemma MountedOnlyAfterMounting(steps: seq<Step>, i: nat)
    requires var held := Run(START, steps).held; i < |held| && held[i] == Mounted
    ensures var held := Run(START, steps).held; exists j: nat :: j < i && held[j] == Mounting
  {
    EveryInterleavingIsLawful(steps);
    MountingBefore(Run(START, steps).held, i);
  }

  /** What each state is entered from */
  lemma EnteredFrom(from: MountState, to: MountState)
    ensures CanTransition(from, to) <==>
              from == to ||
              match to
              case Unmounted => from == Failed || from == Unmounting
              case Mounting => from == Unmounted || from == Failed
              case Mounted => from == Mounting
              case Failed => from == Mounting || from == Mounted || from == Unmounting
              case Unmounting => from == Mounted
  {
  }

  lemma {:induction false} MountedBefore(held: seq<MountState>, i: nat)
    requires i < |held| && held[0] == Unmounted && held[i] == Unmounting
    requires forall k: nat :: 0 < k < |held| ==> Justified(held, k)
    ensures exists j: nat :: j < i && held[j] == Mounted
    decreases i
  {
    assert Justified(held, i);
    var j: nat :| j < i && CanTransition(held[j], held[i]);
    if held[j] == Unmounting {
      MountedBefore(held, j);
    }
  }

  lemma {:induction false} StartedBefore(held: seq<MountState>, i: nat)
    requires i < |held| && held[0] == Unmounted && held[i] == Failed
    requires forall k: nat :: 0 < k < |held| ==> Justified(held, k)
    ensures exists j: nat :: j < i && held[j] == Mounting
    decreases i
  {
    assert Justified(held, i);
    var j: nat :| j < i && CanTransition(held[j], held[i]);
    if held[j] == Failed {
      StartedBefore(held, j);
    } else if held[j] == Unmounting {
      MountedBefore(held, j);
      var k: nat :| k < j && held[k] == Mounted;
      MountingBefore(held, k);
    } else if held[j] == Mounted {
      MountingBefore(held, j);
    }
  }

  /** Likewise `Unmounting` is never held before `Mounted`, and `Failed` never before `Mounting`. */
  lemma LaterStatesComeLater(steps: seq<Step>, i: nat)
    requires i < |Run(START, steps).held|
    ensures var held := Run(START, steps).held;
            && (held[i] == Unmounting ==> exists j: nat :: j < i && held[j] == Mounted)
            && (held[i] == Failed ==> exists j: nat :: j < i && held[j] == Mounting)
  {
    EveryInterleavingIsLawful(steps);
    var held := Run(START, steps).held;
    if held[i] == Unmounting {
      MountedBefore(held, i);
    } else if held[i] == Failed {
      StartedBefore(held, i);
    }
  }

  // ---- nothing held goes unrecorded ---------------------------------------------------------------------

  /** How often `x` occurs in a list of states */
  function Times(held: seq<MountState>, x: MountState): nat {
    if held == [] then 0 else Times(held[..|held| - 1], x) + if held[|held| - 1] == x then 1 else 0
  }

  function TimesRecorded(entries: seq<Entry>, x: MountState): nat {
    if entries == [] then 0
    else TimesRecorded(entries[..|entries| - 1], x) + if entries[|entries| - 1].to == x then 1 else 0
  }

  function Weight(c: Call, x: MountState): nat {
    if c.Applied? && c.to == x then 1 else 0
  }

  /** How many calls have written `x` and not yet recorded it */
  function TimesPending(calls: seq<Call>, x: MountState): nat {
    if calls == [] then 0 else TimesPending(calls[..|calls| - 1], x) + Weight(calls[|calls| - 1], x)
  }

  lemma {:induction false} PendingUpdate(calls: seq<Call>, k: nat, c: Call, x: MountState)
    requires k < |calls|
    ensures TimesPending(calls[k := c], x) + Weight(calls[k], x) == TimesPending(calls, x) + Weight(c, x)
    decreases |calls|
  {
    hide Weight;
    var n := |calls| - 1;
    if k < n {
      PendingUpdate(calls[..n], k, c, x);
      assert calls[k := c][..n] == calls[..n][k := c];
    } else {
      assert calls[k := c][..n] == calls[..n];
    }
  }

  ghost predicate Accounted(m: Machine, x: MountState) {
    Times(m.held, x) == Times([Unmounted], x) + TimesRecorded(m.recorded, x) + TimesPending(m.calls, x)
  }

  lemma AccountedWrite(m: Machine, k: nat, x: MountState)
    requires Accounted(m, x) && k < |m.calls| && m.calls[k].Checked?
    ensures Accounted(Next(m, Write(k)), x)
  {
    hide TimesRecorded, TimesPending;
    var n := Next(m, Write(k));
    PendingUpdate(m.calls, k, n.calls[k], x);
    assert n.held[..|n.held| - 1] == m.held;
  }

  lemma AccountedPush(m: Machine, k: nat, x: MountState)
    requires Accounted(m, x) && k < |m.calls| && m.calls[k].Applied?
    ensures Accounted(Next(m, Push(k)), x)
  {
    hide Times, TimesPending, Record;
    var n := Next(m, Push(k));
    PendingUpdate(m.calls, k, n.calls[k], x);
    assert n.recorded[..|n.recorded| - 1] == m.recorded;
  }

  lemma AccountedStep(m: Machine, step: Step, x: MountState)
    requires Accounted(m, x)
    ensures Accounted(Next(m, step), x)
  {
    hide Times, TimesRecorded, Record, CanTransition;
    match step
    case Ask(to) => assert Next(m, step).calls[..|m.calls|] == m.calls;
    case Read(k) =>
      if k < |m.calls| && m.calls[k].Asked? { PendingUpdate(m.calls, k, Next(m, step).calls[k], x); }
    case Write(k) => if k < |m.calls| && m.calls[k].Checked? { AccountedWrite(m, k, x); }
    case Push(k) => if k < |m.calls| && m.calls[k].Applied? { AccountedPush(m, k, x); }
  }

  /** However calls interleave: each state has been held, after the start, exactly as often as it was recorded
      or is about to be. */
  lemma {:induction false} EveryChangeIsRecordedOnce(steps: seq<Step>, x: MountState)
    ensures Accounted(Run(START, steps), x)
    decreases |steps|
  {
    hide Accounted, Next;
    if steps == [] {
      AccountedAtStart(x);
    } else {
      EveryChangeIsRecordedOnce(steps[..|steps| - 1], x);
      AccountedStep(Run(START, steps[..|steps| - 1]), steps[|steps| - 1], x);
    }
  }

  lemma AccountedAtStart(x: MountState)
    ensures Accounted(START, x)
  {
  }

  // ---- what interleaving costs --------------------------------------------------------------------------

  ghost predicate Chained(entries: seq<Entry>) {
    forall i, j :: 0 <= i && j == i + 1 && j < |entries| ==> entries[i].to == entries[j].from
  }

  ghost predicate Walk(held: seq<MountState>) {
    forall i, j :: 0 <= i && j == i + 1 && j < |held| ==> CanTransition(held[i], held[j])
  }

  /** No call writes when the state has moved on to one that no longer allows it. */
  predicate NoStaleWrite(steps: seq<Step>)
    decreases |steps|
  {
    steps == [] ||
    (var m, step := Run(START, steps[..|steps| - 1]), steps[|steps| - 1];
     NoStaleWrite(steps[..|steps| - 1])
     && (step.Write? && step.k < |m.calls| && m.calls[step.k].Checked? ==> CanTransition(m.state, m.calls[step.k].to)))
  }

  lemma WalkSnocIff(held: seq<MountState>, to: MountState)
    requires |held| > 0
    ensures Walk(held + [to]) <==> Walk(held) && CanTransition(held[|held| - 1], to)
  {
    hide CanTransition;
    var n := held + [to];
    if Walk(n) {
      assert n[|held| - 1] == held[|held| - 1] && n[|held|] == to;
      forall i, j | 0 <= i && j == i + 1 && j < |held| ensures CanTransition(held[i], held[j]) {
        assert n[i] == held[i] && n[j] == held[j];
      }
    }
  }

  lemma WalkGrows(m: Machine, step: Step)
    requires Inv(m)
    ensures Walk(Next(m, step).held) <==>
              Walk(m.held)
              && (step.Write? && step.k < |m.calls| && m.calls[step.k].Checked? ==>
                    CanTransition(m.state, m.calls[step.k].to))
  {
    hide CanTransition, Walk;
    match step
    case Write(k) =>
      if k < |m.calls| && m.calls[k].Checked? {
        WalkSnocIff(m.held, m.calls[k].to);
      }
    case _ =>
  }

  /** The state itself moves along legal edges only, if and only if no write comes too late. */
  lemma {:induction false} WalkIff(steps: seq<Step>)
    ensures Walk(Run(START, steps).held) <==> NoStaleWrite(steps)
    decreases |steps|
  {
    hide Walk, Next;
    if steps == [] {
      OrderlyAtStart();
    } else {
      var earlier := steps[..|steps| - 1];
      WalkIff(earlier);
      EveryInterleavingIsLawful(earlier);
      WalkGrows(Run(START, earlier), steps[|steps| - 1]);
    }
  }

  /** No call but `k` writes after step `i` and before step `j`. */
  ghost predicate OnlyWriter(steps: seq<Step>, i: nat, j: nat, k: nat)
    requires j <= |steps|
  {
    forall l: nat :: i < l < j && steps[l].Write? ==> steps[l].k == k
  }

  /** No call writes between another call's read and its write. */
  ghost predicate Undisturbed(steps: seq<Step>) {
    forall i: nat, j: nat :: i < j < |steps| && steps[i].Read? && steps[j] == Write(steps[i].k) ==>
      OnlyWriter(steps, i, j, steps[i].k)
  }

  /** A call that has passed its check read the state at some step, and what it read still holds if no other
      call has written since. */
  lemma {:induction false} CheckedSince(steps: seq<Step>, k: nat) returns (i: nat)
    requires var m := Run(START, steps); k < |m.calls| && m.calls[k].Checked?
    ensures i < |steps| && steps[i] == Read(k)
    ensures var m := Run(START, steps); OnlyWriter(steps, i, |steps|, k) ==> m.state == m.calls[k].from
    decreases |steps|
  {
    hide CanTransition, Record;
    var n := |steps| - 1;
    var before, last := Run(START, steps[..n]), steps[n];
    if last == Read(k) && before.calls[k].Asked? {
      i := n;
    } else {
      i := CheckedSince(steps[..n], k);
      if OnlyWriter(steps, i, |steps|, k) {
        assert OnlyWriter(steps[..n], i, n, k);
        assert last.Write? ==> last.k == k;
      }
    }
  }

  /** So it is enough that calls keep their reads and writes together: then the state moves along legal edges
      only. */
  lemma {:induction false} UndisturbedIsWalk(steps: seq<Step>)
    requires Undisturbed(steps)
    ensures NoStaleWrite(steps) && Walk(Run(START, steps).held)
    decreases |steps|
  {
    hide Walk, CanTransition, Next;
    WalkIff(steps);
    if steps != [] {
      var n := |steps| - 1;
      var m, step := Run(START, steps[..n]), steps[n];
      UndisturbedBefore(steps);
      UndisturbedIsWalk(steps[..n]);
      if step.Write? && step.k < |m.calls| && m.calls[step.k].Checked? {
        var i := CheckedSince(steps[..n], step.k);
        assert OnlyWriter(steps, i, n, step.k);
        assert OnlyWriter(steps[..n], i, n, step.k);
        EveryInterleavingIsLawful(steps[..n]);
        assert CallSound(m.held, m.calls[step.k]);
      }
    }
  }

  lemma UndisturbedBefore(steps: seq<Step>)
    requires Undisturbed(steps) && steps != []
    ensures Undisturbed(steps[..|steps| - 1])
  {
    var init := steps[..|steps| - 1];
    forall i: nat, j: nat | i < j < |init| && init[i].Read? && init[j] == Write(init[i].k)
      ensures OnlyWriter(init, i, j, init[i].k)
    {
      assert steps[i] == init[i] && steps[j] == init[j];
      assert OnlyWriter(steps, i, j, steps[i].k);
    }
  }

  /** Two calls that both read before either writes, and record in the opposite order */
  function Race(): seq<Step> {
    [Ask(Mounting), Ask(Unmounted), Read(0), Read(1)] + [Write(0), Write(1), Push(1), Push(0)]
  }

  /** The state jumps along an illegal edge, and the last entry is not the one that led to the current
      state. */
  lemma RacingCallsJump()
    ensures var m := Run(START, Race());
            && !Walk(m.held) && m.history != []
            && m.history[|m.history| - 1].to != m.state
  {
    RunAppend(START, [Ask(Mounting), Ask(Unmounted), Read(0), Read(1)], [Write(0), Write(1), Push(1), Push(0)]);
    RunFour(START, Ask(Mounting), Ask(Unmounted), Read(0), Read(1));
    var asked := START.(calls := [Asked(Mounting), Asked(Unmounted)]);
    assert Next(Next(START, Ask(Mounting)), Ask(Unmounted)) == asked;
    var racing := START.(calls := [Checked(Unmounted, Mounting), Checked(Unmounted, Unmounted)]);
    assert Next(Next(asked, Read(0)), Read(1)) == racing;
    RunFour(racing, Write(0), Write(1), Push(1), Push(0));
    RaceEnds(racing);
  }

  lemma RaceEnds(m: Machine)
    requires m == START.(calls := [Checked(Unmounted, Mounting), Checked(Unmounted, Unmounted)])
    ensures var n := Next(Next(Next(Next(m, Write(0)), Write(1)), Push(1)), Push(0));
            && !Walk(n.held)
            && |n.history| == 2 && n.history[1].to != n.state
  {
    var n := Next(Next(Next(Next(m, Write(0)), Write(1)), Push(1)), Push(0));
    assert n.held == [Unmounted, Mounting, Unmounted] && !CanTransition(n.held[1], n.held[2]);
    assert n.history == [Entry(Unmounted, Unmounted), Entry(Unmounted, Mounting)];
  }

  // ---- one call at a time --------------------------------------------------------------------------------

  /** The four steps of call number `k`, with nothing in between */
  function WholeCall(k: nat, to: MountState): seq<Step> {
    [Ask(to), Read(k), Write(k), Push(k)]
  }

  function Serial(targets: seq<MountState>): seq<Step> {
    if targets == [] then []
    else Serial(targets[..|targets| - 1]) + WholeCall(|targets| - 1, targets[|targets| - 1])
  }

  /** The entries that calls made one after the other leave behind, from `Unmounted` on */
  function Accepted(targets: seq<MountState>): seq<Entry> {
    if targets == [] then []
    else
      var before, to := Accepted(targets[..|targets| - 1]), targets[|targets| - 1];
      if CanTransition(Final(before), to) then before + [Entry(Final(before), to)] else before
  }

  function Final(entries: seq<Entry>): MountState {
    if entries == [] then Unmounted else entries[|entries| - 1].to
  }

  lemma RunWholeCall(m: Machine, to: MountState)
    ensures var n := Run(m, WholeCall(|m.calls|, to));
            && n.calls == m.calls + [Finished]
            && (if CanTransition(m.state, to) then
                  n.state == to && n.history == Record(m.history, Entry(m.state, to))
                  && n.recorded == m.recorded + [Entry(m.state, to)] && n.held == m.held + [to]
                else
                  n.state == m.state && n.history == m.history && n.recorded == m.recorded && n.held == m.held)
  {
    hide Run;
    var k := |m.calls|;
    RunFour(m, Ask(to), Read(k), Write(k), Push(k));
  }

  /** Entries chain from-to, each jump is legal, the last entry leads to the current state, and the history is
      the last hundred of all transitions made. */
  ghost predicate Orderly(m: Machine, all: seq<Entry>) {
    && m.recorded == all && Chained(all) && m.history == LastN(all, MAX_HISTORY)
    && m.state == Final(all)
    && Walk(m.held) && |m.held| > 0 && m.held[|m.held| - 1] == m.state
  }

  lemma ChainedSnoc(entries: seq<Entry>, to: MountState)
    requires Chained(entries)
    ensures Chained(entries + [Entry(Final(entries), to)])
  {
  }

  lemma OrderlyCall(m: Machine, all: seq<Entry>, to: MountState)
    requires Orderly(m, all)
    ensures Orderly(Run(m, WholeCall(|m.calls|, to)),
                    if CanTransition(Final(all), to) then all + [Entry(Final(all), to)] else all)
  {
    hide Run, CanTransition, Record, LastN, Chained, Walk, WholeCall;
    RunWholeCall(m, to);
    if CanTransition(m.state, to) {
      RecordKeepsLast(all, Entry(m.state, to));
      ChainedSnoc(all, to);
      WalkSnocIff(m.held, to);
    }
  }

  /** What calls made one after the other do. */
  lemma {:induction false} SerialCallsChain(targets: seq<MountState>)
    ensures var m := Run(START, Serial(targets));
            Orderly(m, Accepted(targets)) && |m.calls| == |targets|
  {
    hide Orderly, CanTransition;
    if targets == [] {
      OrderlyAtStart();
    } else {
      var earlier, to := targets[..|targets| - 1], targets[|targets| - 1];
      SerialCallsChain(earlier);
      var m := Run(START, Serial(earlier));
      RunAppend(START, Serial(earlier), WholeCall(|earlier|, to));
      RunWholeCall(m, to);
      OrderlyCall(m, Accepted(earlier), to);
    }
  }

  lemma OrderlyAtStart()
    ensures Orderly(START, [])
  {
  }

  // ---- the object ----------------------------------------------------------------------------------------

  class MountStateMachine {
    var state: MountState
    var history: seq<Entry>

    constructor ()
      ensures state == START.state && history == START.history
    {
      state, history := Unmounted, [];
    }

    /** `transition` with nothing in between: all four steps of a call on the shared machine */
    method Transition(newState: MountState) returns (ok: bool)
      modifies this
      ensures ok <==> CanTransition(old(state), newState)
      ensures !ok ==> state == old(state) && history == old(history)
      ensures ok ==>
                && state == newState
                && var longer := old(history) + [Entry(old(state), newState)];
                   history == if |longer| > 100 then longer[1..] else longer
      ensures var m := Run(Machine(old(state), old(history), [], [old(state)], []), WholeCall(0, newState));
              state == m.state && history == m.history
    {
      hide Run, WholeCall, CanTransition;
      RunWholeCall(Machine(state, history, [], [state], []), newState);
      var current := state;
      if !CanTransition(current, newState) {
        return false;
      }
      state := newState;
      history := history + [Entry(current, newState)];
      if |history| > MAX_HISTORY {
        history := history[1..];
      }
      return true;
    }

    method GetLastN(n: nat) returns (entries: seq<Entry>)
      ensures |entries| == if n <= |history| then n else |history|
      ensures entries <= history[|history| - |entries|..]
    {
      if |history| <= n {
        return history;
      }
      return history[|history| - n..];
    }
  }
}
