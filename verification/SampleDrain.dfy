/**
 * The freeze/drain handshake between the meter task and the aggregation task
 * (meterTask and aggregationTask of src/app/Application.cpp), as interleaved atomic steps.
 */
module SampleDrain {
  import opened Bytes

  const SAMPLE_QUEUE_DEPTH: nat := 8
  const MAXIMUM_BOUNDARY_RECORDS: nat := 2

  /** Where the meter task is; each name is the next atomic access it makes. */
  datatype MeterPc =
    | CheckFreeze      // read the freeze flag at the top of the loop
    | EnterFlight      // fetch_add on sample_enqueues_in_flight_
    | CaptureGeneration
    | CheckAdmission   // admitted_before_poll
    | Poll             // poll, then compare the captured generation with the current one
    | Send             // xQueueSend with zero timeout
    | LeaveFlight      // fetch_sub

  /** Where the aggregation task is. */
  datatype AggregationPc =
    | CheckGate        // read the freeze flag at the top of the loop
    | CheckFlight      // frozen: read sample_enqueues_in_flight_
    | Drain            // frozen: receive with zero timeout
    | CloseInterval    // frozen: close the open interval into a boundary record
    | StageRecords     // frozen: journal the boundary records, then report quiesced
    | Wait             // not frozen at the top: blocked in xQueueReceive
    | Recheck          // holding a received sample: sampleForGenerationAllowed
    | Finish           // the interval is complete: store or retain its record

  datatype MeterTask = MeterTask(pc: MeterPc, sampled: u64, admitted: bool)

  /** `open` counts the samples of the interval being aggregated. */
  datatype AggregationTask = AggregationTask(pc: AggregationPc, held: u64, gateObserved: bool, paused: u64,
                                             boundaryRecords: nat, open: nat)

  /** What became of the admitted samples. */
  datatype Ledger = Ledger(
    admitted: nat,    // polls started with the gate open
    recorded: nat,    // samples in closed intervals
    dropped: nat,     // counted in sample_dropped_: the queue was full
    rejected: nat,    // the generation moved during the poll
    discarded: nat,   // taken from the queue and thrown away
    abandoned: nat)   // samples of an open interval thrown away with it
  {
    function Total(): nat { recorded + dropped + rejected + discarded + abandoned }

    /** Samples admitted and sent, or even aggregated, that reach neither a record nor a counter. */
    function Lost(): nat { discarded + abandoned }
  }

  /** `queue` holds the generations of the queued samples. */
  datatype State = State(frozen: bool, quiesced: bool, generation: u64, inFlight: nat, queue: seq<u64>,
                         meter: MeterTask, aggregation: AggregationTask, ledger: Ledger)

  /** A device that has just started its tasks. */
  const INITIAL := State(false, false, 0, 0, [], MeterTask(CheckFreeze, 0, false),
                         AggregationTask(CheckGate, 0, false, 0, 0, 0), Ledger(0, 0, 0, 0, 0, 0))

  /** One atomic step of some task; `choice` resolves what the environment decides. */
  datatype Action = Meter | Aggregation(choice: bool) | Freeze | AdvanceGeneration

  function MeterStep(s: State): State
  {
    var m, l := s.meter, s.ledger;
    match m.pc
    case CheckFreeze => if s.frozen then s else s.(meter := m.(pc := EnterFlight))
    case EnterFlight => s.(inFlight := s.inFlight + 1, meter := m.(pc := CaptureGeneration))
    case CaptureGeneration => s.(meter := m.(pc := CheckAdmission, sampled := s.generation))
    case CheckAdmission =>
      s.(meter := m.(pc := Poll, admitted := !s.frozen), ledger := l.(admitted := l.admitted + Count(!s.frozen)))
    case Poll =>
      if m.admitted && m.sampled == s.generation then s.(meter := m.(pc := Send))
      else s.(meter := m.(pc := LeaveFlight, admitted := false),
              ledger := l.(rejected := l.rejected + Count(m.admitted)))
    case Send =>
      if |s.queue| < SAMPLE_QUEUE_DEPTH
      then s.(queue := s.queue + [m.sampled], meter := m.(pc := LeaveFlight, admitted := false))
      else s.(meter := m.(pc := LeaveFlight, admitted := false), ledger := l.(dropped := l.dropped + 1))
    case LeaveFlight =>
      s.(inFlight := if s.inFlight > 0 then s.inFlight - 1 else 0, meter := m.(pc := CheckFreeze))
  }

  function AggregationStep(s: State, choice: bool): State
  {
    var g, l := s.aggregation, s.ledger;
    match g.pc
    case CheckGate =>
      if !s.frozen then s.(aggregation := g.(pc := Wait))
      else if g.gateObserved then s.(aggregation := g.(pc := CheckFlight))
      else s.(aggregation := g.(pc := CheckFlight, gateObserved := true, paused := s.generation))
    case CheckFlight => s.(aggregation := g.(pc := if s.inFlight != 0 then CheckGate else Drain))
    case Drain =>
      if s.queue == [] then s.(aggregation := g.(pc := CloseInterval))
      else if s.queue[0] != g.paused then s.(queue := s.queue[1..], ledger := l.(discarded := l.discarded + 1))
      else s.(queue := s.queue[1..], aggregation := g.(open := g.open + 1))
    case CloseInterval =>
      if g.open == 0 then s.(aggregation := g.(pc := StageRecords))
      else if g.boundaryRecords >= MAXIMUM_BOUNDARY_RECORDS then s.(aggregation := g.(pc := CheckGate))
      else s.(aggregation := g.(pc := CheckGate, open := 0, boundaryRecords := g.boundaryRecords + 1),
              ledger := l.(recorded := l.recorded + g.open))
    case StageRecords =>
      if g.boundaryRecords > 0 && !choice then s.(aggregation := g.(pc := CheckGate))
      else s.(quiesced := true, aggregation := g.(pc := CheckGate, boundaryRecords := 0))
    case Wait =>
      if s.queue != [] then s.(queue := s.queue[1..], aggregation := g.(pc := Recheck, held := s.queue[0]))
      else if choice then s.(aggregation := g.(pc := CheckGate))
      else s
    case Recheck =>
      if s.frozen || g.held != s.generation then
        s.(aggregation := g.(pc := CheckGate, open := 0),
           ledger := l.(discarded := l.discarded + 1, abandoned := l.abandoned + g.open))
      else
        s.(aggregation := g.(pc := if choice then Finish else CheckGate, open := g.open + 1))
    case Finish =>
      if !s.frozen then
        s.(aggregation := g.(pc := CheckGate, open := 0), ledger := l.(recorded := l.recorded + g.open))
      else if g.boundaryRecords >= MAXIMUM_BOUNDARY_RECORDS then
        s.(aggregation := g.(pc := CheckGate, open := 0, paused := g.held), ledger := l.(dropped := l.dropped + g.open))
      else
        s.(aggregation := g.(pc := CheckGate, open := 0, boundaryRecords := g.boundaryRecords + 1, paused := g.held),
           ledger := l.(recorded := l.recorded + g.open))
  }

  /** The generation moves on only after the producers reported quiesced, and the freeze is held. */
  function Next(s: State, a: Action): State
  {
    match a
    case Meter => MeterStep(s)
    case Aggregation(choice) => AggregationStep(s, choice)
    case Freeze => s.(frozen := true)
    case AdvanceGeneration =>
      if s.quiesced && s.generation < U64_LIMIT - 1 then s.(generation := s.generation + 1) else s
  }

  /** `states` is the run from `s` that takes the steps `actions`. */
  ghost predicate RunFrom(s: State, actions: seq<Action>, states: seq<State>)
  {
    && |states| == |actions| + 1
    && states[0] == s
    && forall i :: 0 <= i < |actions| ==> states[i + 1] == Next(states[i], actions[i])
  }

  // ----- invariant -------------------------------------------------------------------------

  function Count(b: bool): nat { if b then 1 else 0 }

  /** An admitted sample the meter task has not yet handed over. */
  predicate InHand(s: State)
  {
    s.meter.admitted && (s.meter.pc.Poll? || s.meter.pc.Send?)
  }

  /** Every admitted sample is in exactly one place. */
  predicate Conserved(s: State)
  {
    s.ledger.admitted == Count(InHand(s)) + |s.queue| + Count(s.aggregation.pc.Recheck?) + s.aggregation.open
                         + s.ledger.Total()
  }

  /** What the meter task guarantees. */
  ghost predicate MeterOk(s: State)
  {
    && s.inFlight == Count(!s.meter.pc.CheckFreeze? && !s.meter.pc.EnterFlight?)
    && (s.meter.pc.Send? ==> s.meter.admitted)
    && (s.meter.admitted ==> InHand(s) && s.meter.sampled == s.generation && !s.quiesced)
    && (s.meter.pc.CheckAdmission? && !s.frozen ==> s.meter.sampled == s.generation)
    && s.ledger.rejected == 0 && |s.queue| <= SAMPLE_QUEUE_DEPTH
  }

  ghost predicate AllCurrent(queue: seq<u64>, generation: u64)
  {
    forall i :: 0 <= i < |queue| ==> queue[i] == generation
  }

  /** What the aggregation task guarantees. */
  ghost predicate AggregationOk(s: State)
  {
    var g := s.aggregation;
    && (g.pc.Recheck? || g.pc.Finish? ==> g.held == s.generation && !s.quiesced)
    && (g.pc.Wait? ==> !s.quiesced)
    && (g.gateObserved ==> s.frozen && (g.paused == s.generation || s.quiesced))
    && (g.pc.CheckFlight? ==> g.gateObserved)
    // past the in-flight check nothing admitted can be outside the queue any more
    && (g.pc.Drain? || g.pc.CloseInterval? || g.pc.StageRecords? ==> g.gateObserved && !s.meter.admitted)
    && (g.pc.CloseInterval? || g.pc.StageRecords? ==> s.queue == [])
    && (g.pc.StageRecords? ==> g.open == 0) && (g.pc.Finish? ==> g.open > 0)
    && (s.quiesced ==> s.frozen && g.gateObserved && s.queue == [] && g.open == 0)
  }

  /**
   * The boundary records: none while the gate is open, one for the interval that was being finished when it closed,
   * and one for what the drain left open, after which nothing more can come.
   */
  ghost predicate BoundaryOk(s: State)
  {
    var g := s.aggregation;
    && g.boundaryRecords <= MAXIMUM_BOUNDARY_RECORDS
    && (!s.frozen || g.pc.Wait? || g.pc.Recheck? || g.pc.Finish? ==> g.boundaryRecords == 0)
    && (g.boundaryRecords == MAXIMUM_BOUNDARY_RECORDS ==> s.queue == [] && g.open == 0 && !s.meter.admitted)
  }

  ghost predicate Invariant(s: State)
  {
    Conserved(s) && MeterOk(s) && AllCurrent(s.queue, s.generation) && AggregationOk(s) && BoundaryOk(s)
  }

  /** Both tasks at the top of their loops, gate open, nothing sampled yet. */
  predicate AtRest(s: State)
  {
    && !s.frozen && !s.quiesced && s.inFlight == 0 && s.queue == []
    && s.meter.pc.CheckFreeze? && !s.meter.admitted
    && s.aggregation.pc.CheckGate? && !s.aggregation.gateObserved && s.aggregation.open == 0
    && s.aggregation.boundaryRecords == 0 && s.ledger == Ledger(0, 0, 0, 0, 0, 0)
  }

  lemma InvariantAtRest(s: State)
    requires AtRest(s)
    ensures Invariant(s) && s.ledger.Lost() == 0
  {
  }

  lemma MeterKeepsAccounts(s: State)
    requires Invariant(s)
    ensures Conserved(MeterStep(s)) && MeterOk(MeterStep(s))
  {
  }

  lemma MeterKeepsAggregation(s: State)
    requires Invariant(s)
    ensures AggregationOk(MeterStep(s)) && AllCurrent(MeterStep(s).queue, s.generation)
  {
  }

  lemma InvariantMeter(s: State)
    requires Invariant(s)
    ensures Invariant(MeterStep(s))
  {
    MeterKeepsAccounts(s);
    MeterKeepsAggregation(s);
    assert MeterStep(s).generation == s.generation;
  }

  lemma InvariantGate(s: State, choice: bool)
    requires Invariant(s)
    requires var pc := s.aggregation.pc; pc.CheckGate? || pc.CheckFlight? || pc.CloseInterval? || pc.StageRecords?
    ensures Invariant(AggregationStep(s, choice))
  {
  }

  lemma InvariantReceive(s: State, choice: bool)
    requires Invariant(s) && (s.aggregation.pc.Drain? || s.aggregation.pc.Wait?)
    ensures Invariant(AggregationStep(s, choice))
  {
    if s.queue != [] {
      assert s.queue[0] == s.generation;
      assert AllCurrent(s.queue[1..], s.generation);
    }
  }

  lemma InvariantHolding(s: State, choice: bool)
    requires Invariant(s) && (s.aggregation.pc.Recheck? || s.aggregation.pc.Finish?)
    ensures Invariant(AggregationStep(s, choice))
  {
  }

  lemma InvariantStep(s: State, a: Action)
    requires Invariant(s)
    ensures Invariant(Next(s, a))
  {
    match a {
      case Meter => InvariantMeter(s);
      case Aggregation(choice) =>
        if s.aggregation.pc.Drain? || s.aggregation.pc.Wait? {
          InvariantReceive(s, choice);
        } else if s.aggregation.pc.Recheck? || s.aggregation.pc.Finish? {
          InvariantHolding(s, choice);
        } else {
          InvariantGate(s, choice);
        }
      case Freeze =>
      case AdvanceGeneration =>
    }
  }

  lemma {:induction false} InvariantRun(s: State, actions: seq<Action>, states: seq<State>, n: nat)
    requires Invariant(s) && RunFrom(s, actions, states) && n < |states|
    ensures Invariant(states[n])
  {
    if n > 0 {
      InvariantRun(s, actions, states, n - 1);
      InvariantStep(states[n - 1], actions[n - 1]);
    }
  }

  /**
   * In every interleaving, once aggregation has reported quiesced the queue is empty, no admitted sample
   * is in flight, nothing is ever enqueued again, and every admitted sample is accounted for.
   */
  lemma QuiescedIsComplete(actions: seq<Action>, states: seq<State>, n: nat, m: nat)
    requires |states| > 0 && AtRest(states[0]) && RunFrom(states[0], actions, states) && n <= m < |states| && states[n].quiesced
    ensures var s := states[n];
            && s.queue == [] && !InHand(s) && s.aggregation.open == 0
            && s.ledger.admitted == s.ledger.recorded + s.ledger.dropped + s.ledger.Lost()
    ensures states[m].quiesced && states[m].queue == [] && !InHand(states[m]) && states[m].ledger == states[n].ledger
  {
    InvariantAtRest(states[0]);
    InvariantRun(states[0], actions, states, n);
    QuiescedIsFinal(actions, states, n, m);
  }

  lemma {:induction false} QuiescedIsFinal(actions: seq<Action>, states: seq<State>, n: nat, m: nat)
    requires |states| > 0 && AtRest(states[0]) && RunFrom(states[0], actions, states) && n <= m < |states|
    requires Invariant(states[n]) && states[n].quiesced
    ensures Invariant(states[m]) && states[m].quiesced && states[m].ledger == states[n].ledger
  {
    if n < m {
      QuiescedIsFinal(actions, states, n, m - 1);
      InvariantStep(states[m - 1], actions[m - 1]);
      QuiescedStep(states[m - 1], actions[m - 1]);
    }
  }

  lemma QuiescedStep(s: State, a: Action)
    requires Invariant(s) && s.quiesced
    ensures Next(s, a).quiesced && Next(s, a).ledger == s.ledger
  {
  }

  /**
   * In every interleaving the array of boundary records never overflows: an interval that is finished behind the gate
   * finds it empty, and one that the drain closes finds room.
   */
  lemma BoundaryNeverOverflows(actions: seq<Action>, states: seq<State>, n: nat)
    requires |states| > 0 && AtRest(states[0]) && RunFrom(states[0], actions, states) && n < |states|
    ensures var g := states[n].aggregation;
            && g.boundaryRecords <= MAXIMUM_BOUNDARY_RECORDS
            && (g.pc.Finish? ==> g.boundaryRecords == 0)
            && (g.pc.CloseInterval? && g.open > 0 ==> g.boundaryRecords < MAXIMUM_BOUNDARY_RECORDS)
  {
    InvariantAtRest(states[0]);
    InvariantRun(states[0], actions, states, n);
  }

  /** The meter task sends, and the queue is full. */
  predicate SendsToFull(s: State, a: Action)
  {
    a.Meter? && s.meter.pc.Send? && |s.queue| == SAMPLE_QUEUE_DEPTH
  }

  /** How often that happens in the first `n` steps. */
  function FullSends(states: seq<State>, actions: seq<Action>, n: nat): nat
    requires n <= |actions| < |states|
  {
    if n == 0 then 0
    else FullSends(states, actions, n - 1) + Count(SendsToFull(states[n - 1], actions[n - 1]))
  }

  lemma DroppedStep(s: State, a: Action)
    requires Invariant(s)
    ensures Next(s, a).ledger.dropped == s.ledger.dropped + Count(SendsToFull(s, a))
  {
  }

  /** In every interleaving, a full queue is the only thing that drops a sample, and it drops exactly one. */
  lemma {:induction false} DroppedAtFullQueueOnly(actions: seq<Action>, states: seq<State>, n: nat)
    requires |states| > 0 && AtRest(states[0]) && RunFrom(states[0], actions, states) && n < |states|
    ensures states[n].ledger.dropped == FullSends(states, actions, n)
  {
    if n > 0 {
      DroppedAtFullQueueOnly(actions, states, n - 1);
      InvariantAtRest(states[0]);
      InvariantRun(states[0], actions, states, n - 1);
      DroppedStep(states[n - 1], actions[n - 1]);
    }
  }

  /**
   * So once aggregation has reported quiesced in a run that never met a full queue, every admitted sample is in a
   * record, or among the lost ones below.
   */
  lemma QuiescedIsRecorded(actions: seq<Action>, states: seq<State>, n: nat)
    requires |states| > 0 && AtRest(states[0]) && RunFrom(states[0], actions, states) && n < |states| && states[n].quiesced
    ensures states[n].ledger.admitted == states[n].ledger.recorded + states[n].ledger.Lost() + FullSends(states, actions, n)
  {
    QuiescedIsComplete(actions, states, n, n);
    DroppedAtFullQueueOnly(actions, states, n);
  }

  /** The intervals closed into a record behind the gate since the journal last accepted the boundary records. */
  function Unstaged(states: seq<State>, actions: seq<Action>, n: nat): nat
    requires n <= |actions| < |states|
  {
    if n == 0 then 0
    else
      var s, t := states[n - 1], states[n];
      if actions[n - 1] == Aggregation(true) && s.aggregation.pc.StageRecords? then 0
      else Unstaged(states, actions, n - 1) + Count(s.frozen && s.ledger.recorded < t.ledger.recorded)
  }

  lemma StagedStep(s: State, a: Action)
    requires Invariant(s)
    ensures var t := Next(s, a);
            t.aggregation.boundaryRecords
              == if a == Aggregation(true) && s.aggregation.pc.StageRecords? then 0
                 else s.aggregation.boundaryRecords + Count(s.frozen && s.ledger.recorded < t.ledger.recorded)
    ensures !s.quiesced && Next(s, a).quiesced ==> Next(s, a).aggregation.boundaryRecords == 0
    ensures s.quiesced ==> Next(s, a).aggregation.boundaryRecords <= s.aggregation.boundaryRecords
  {
  }

  /**
   * In every interleaving, the boundary records kept are those of the intervals closed behind the gate that the journal
   * has not accepted yet; none is left when quiesced is reported, nor after.
   */
  lemma {:induction false} QuiescedIsStaged(actions: seq<Action>, states: seq<State>, n: nat)
    requires |states| > 0 && AtRest(states[0]) && RunFrom(states[0], actions, states) && n < |states|
    ensures states[n].aggregation.boundaryRecords == Unstaged(states, actions, n)
    ensures states[n].quiesced ==> Unstaged(states, actions, n) == 0
  {
    InvariantAtRest(states[0]);
    if n > 0 {
      QuiescedIsStaged(actions, states, n - 1);
      InvariantRun(states[0], actions, states, n - 1);
      StagedStep(states[n - 1], actions[n - 1]);
    }
  }

  /** The generation counts the resets that found quiesced reported. */
  function Resets(states: seq<State>, actions: seq<Action>, n: nat): nat
    requires n <= |actions| < |states|
  {
    if n == 0 then 0
    else Resets(states, actions, n - 1) + Count(actions[n - 1].AdvanceGeneration? && states[n - 1].quiesced)
  }

  lemma {:induction false} GenerationCountsResets(actions: seq<Action>, states: seq<State>, n: nat)
    requires |states| > 0 && RunFrom(states[0], actions, states) && n < |states|
    ensures var generation := states[0].generation + Resets(states, actions, n);
            states[n].generation == if generation < U64_LIMIT then generation else U64_LIMIT - 1
  {
    if n > 0 {
      GenerationCountsResets(actions, states, n - 1);
      GenerationStep(states[n - 1], actions[n - 1]);
    }
  }

  lemma GenerationStep(s: State, a: Action)
    ensures Next(s, a).generation
         == s.generation + Count(a.AdvanceGeneration? && s.quiesced && s.generation < U64_LIMIT - 1)
  {
  }

  // ----- when is the drain lossless? ----------------------------------------------------------

  /**
   * The window in which setting the freeze loses data: aggregation has passed its check of the gate and
   * has a sample in hand, or is blocked on the queue with a sample in it or about to enter it.
   */
  predicate Exposed(s: State)
  {
    || s.aggregation.pc.Recheck?
    || (s.aggregation.pc.Wait? && (s.queue != [] || s.meter.admitted))
  }

  lemma SealedStep(s: State, a: Action)
    requires Invariant(s) && s.frozen && !Exposed(s)
    ensures var t := Next(s, a); t.frozen && !Exposed(t) && t.ledger.Lost() == s.ledger.Lost()
  {
  }

  /** Once frozen outside the window, nothing is lost in any continuation. */
  lemma {:induction false} SealedRun(s: State, actions: seq<Action>, states: seq<State>, n: nat)
    requires Invariant(s) && s.frozen && !Exposed(s)
    requires RunFrom(s, actions, states) && n < |states|
    ensures states[n].frozen && !Exposed(states[n]) && states[n].ledger.Lost() == s.ledger.Lost()
  {
    if n > 0 {
      SealedRun(s, actions, states, n - 1);
      InvariantRun(s, actions, states, n - 1);
      SealedStep(states[n - 1], actions[n - 1]);
    }
  }

  lemma OpenGateStep(s: State, a: Action)
    requires Invariant(s) && s.ledger.Lost() == 0
    requires !s.frozen && !Next(s, a).frozen
    ensures Next(s, a).ledger.Lost() == 0
  {
  }

  /** With the gate open nothing is lost either. */
  lemma {:induction false} OpenGateLosesNothing(actions: seq<Action>, states: seq<State>, n: nat)
    requires |states| > 0 && AtRest(states[0]) && RunFrom(states[0], actions, states) && n < |states| && !states[n].frozen
    ensures states[n].ledger.Lost() == 0
  {
    InvariantAtRest(states[0]);
    if n > 0 {
      var s, a := states[n - 1], actions[n - 1];
      assert states[n] == Next(s, a);
      InvariantRun(states[0], actions, states, n - 1);
      FreezeIsHeld(s, a);
      OpenGateLosesNothing(actions, states, n - 1);
      OpenGateStep(s, a);
    }
  }

  lemma FreezeIsHeld(s: State, a: Action)
    ensures s.frozen ==> Next(s, a).frozen
  {
  }

  ghost predicate CanLose(s: State)
  {
    exists actions: seq<Action>, states: seq<State> :: RunFrom(s, actions, states) && states[|actions|].ledger.Lost() > s.ledger.Lost()
  }

  /**
   * The exact condition. Setting the freeze in a state the tasks have reached can lose admitted samples in
   * some interleaving if and only if that state is exposed.
   */
  lemma FreezeLosesExactlyWhenExposed(actions: seq<Action>, states: seq<State>, n: nat)
    requires |states| > 0 && AtRest(states[0]) && RunFrom(states[0], actions, states) && n < |states| && !states[n].frozen
    ensures CanLose(Next(states[n], Freeze)) <==> Exposed(states[n])
    ensures Next(states[n], Freeze).ledger.Lost() == 0
  {
    InvariantAtRest(states[0]);
    InvariantRun(states[0], actions, states, n);
    OpenGateLosesNothing(actions, states, n);
    InvariantStep(states[n], Freeze);
    var s := Next(states[n], Freeze);
    if Exposed(s) {
      LosingSchedule(s);
    } else if CanLose(s) {
      var later: seq<Action>, ts: seq<State> :| RunFrom(s, later, ts) && ts[|later|].ledger.Lost() > s.ledger.Lost();
      SealedRun(s, later, ts, |later|);
    }
  }

  /** From an exposed, frozen state some schedule loses a sample. */
  lemma LosingSchedule(s: State)
    requires Invariant(s) && s.frozen && Exposed(s)
    ensures CanLose(s)
  {
    var actions, states := [], [s];
    var t := s;
    if t.aggregation.pc.Wait? && t.queue == [] {
      if t.meter.pc.Poll? {
        actions, states := Then(s, actions, states, Meter);
      }
      actions, states := Then(s, actions, states, Meter);
      t := states[|actions|];
      assert t.queue != [];
    }
    if t.aggregation.pc.Wait? {
      actions, states := Then(s, actions, states, Aggregation(true));
    }
    actions, states := Then(s, actions, states, Aggregation(true));
    assert RunFrom(s, actions, states) && states[|actions|].ledger.Lost() > s.ledger.Lost();
  }

  /** A run extended by one step. */
  lemma Then(s: State, actions: seq<Action>, states: seq<State>, a: Action)
    returns (actions': seq<Action>, states': seq<State>)
    requires RunFrom(s, actions, states)
    ensures RunFrom(s, actions', states')
    ensures |actions'| == |actions| + 1 && states'[|actions'|] == Next(states[|actions|], a)
  {
    actions' := actions + [a];
    states' := states + [Next(states[|actions|], a)];
  }

  /** A run extended by `n` steps of one task; `last` follows the states. */
  lemma Repeat(s: State, actions: seq<Action>, states: seq<State>, a: Action, n: nat)
    returns (actions': seq<Action>, states': seq<State>)
    requires RunFrom(s, actions, states)
    ensures RunFrom(s, actions', states')
    ensures states'[|actions'|] == Steps(states[|actions|], a, n)
  {
    actions', states' := actions, states;
    for i := 0 to n
      invariant RunFrom(s, actions', states')
      invariant states'[|actions'|] == Steps(states[|actions|], a, i)
    {
      actions', states' := Then(s, actions', states', a);
    }
  }

  function Steps(s: State, a: Action, n: nat): State
  {
    if n == 0 then s else Next(Steps(s, a, n - 1), a)
  }

  // ----- nothing gets stuck ------------------------------------------------------------------------

  lemma StepsSplit(s: State, a: Action, n: nat)
    ensures Steps(Next(s, a), a, n) == Steps(s, a, n + 1)
  {
    if n > 0 {
      StepsSplit(s, a, n - 1);
    }
  }

  /** Behind the gate the meter task is soon at the top of its loop, and stays there. */
  lemma {:induction false} MeterComesToRest(s: State) returns (n: nat)
    requires Invariant(s) && s.frozen
    ensures var t := Steps(s, Meter, n);
            Invariant(t) && t.frozen && t.meter.pc.CheckFreeze? && t.inFlight == 0 && (s.quiesced ==> t.quiesced)
    decreases MeterToGo(s.meter.pc)
  {
    if s.meter.pc.CheckFreeze? {
      n := 0;
    } else {
      InvariantMeter(s);
      var m := MeterComesToRest(Next(s, Meter));
      StepsSplit(s, Meter, m);
      n := m + 1;
    }
  }

  function MeterToGo(pc: MeterPc): nat
  {
    match pc
    case EnterFlight => 6
    case CaptureGeneration => 5
    case CheckAdmission => 4
    case Poll => 3
    case Send => 2
    case LeaveFlight => 1
    case CheckFreeze => 0
  }

  /** How far the aggregation task is from reporting quiesced. */
  function DrainToGo(s: State): nat
  {
    20 * |s.queue| + (if s.aggregation.open > 0 then 10 else 0) +
    match s.aggregation.pc
    case Wait => 7
    case Recheck => 6
    case Finish => 5
    case CheckGate => 4
    case CheckFlight => 3
    case Drain => 2
    case CloseInterval => 1
    case StageRecords => 0
  }

  lemma DrainStep(s: State)
    requires Invariant(s) && s.frozen && s.meter.pc.CheckFreeze? && !s.quiesced
    ensures var t := Next(s, Aggregation(true));
            t.frozen && t.meter == s.meter && (t.quiesced || DrainToGo(t) < DrainToGo(s))
  {
    hide AllCurrent, Conserved;
  }

  lemma {:induction false} AggregationQuiesces(s: State) returns (n: nat)
    requires Invariant(s) && s.frozen && s.meter.pc.CheckFreeze?
    ensures Steps(s, Aggregation(true), n).quiesced
    decreases DrainToGo(s)
  {
    hide Invariant, Next, DrainToGo;
    if s.quiesced {
      n := 0;
    } else {
      var a := Aggregation(true);
      InvariantStep(s, a);
      DrainStep(s);
      if Next(s, a).quiesced {
        n := 1;
        assert Steps(s, a, 1) == Next(Steps(s, a, 0), a);
      } else {
        var m := AggregationQuiesces(Next(s, a));
        StepsSplit(s, a, m);
        n := m + 1;
      }
    }
  }

  /**
   * The drain completes: from every point of every run from rest at which the gate is closed, the meter task and then
   * the aggregation task, with the boundary records staged, get to where aggregation reports quiesced.
   */
  lemma DrainCompletes(actions: seq<Action>, states: seq<State>, n: nat) returns (m: nat, k: nat)
    requires |states| > 0 && AtRest(states[0]) && RunFrom(states[0], actions, states) && n < |states| && states[n].frozen
    ensures Steps(Steps(states[n], Meter, m), Aggregation(true), k).quiesced
  {
    InvariantAtRest(states[0]);
    InvariantRun(states[0], actions, states, n);
    m := MeterComesToRest(states[n]);
    k := AggregationQuiesces(Steps(states[n], Meter, m));
  }

  function QueueToGo(s: State): nat
  {
    4 * |s.queue| + match s.aggregation.pc case Recheck => 4 case Finish => 3 case CheckGate => 2 case _ => 1
  }

  lemma QueueStep(s: State)
    requires Invariant(s) && !s.frozen && !(s.queue == [] && s.aggregation.pc.Wait?)
    ensures var t := Next(s, Aggregation(true));
            && !t.frozen && t.meter == s.meter && QueueToGo(t) < QueueToGo(s)
            && t.ledger.Lost() == s.ledger.Lost() && t.ledger.dropped == s.ledger.dropped
            && t.ledger.admitted == s.ledger.admitted
            && (s.queue != [] || s.aggregation.pc.Recheck? || s.aggregation.pc.Finish? ==>
                  t.queue != [] || t.aggregation.pc.Recheck? || t.aggregation.pc.Finish? || t.aggregation.open == 0)
            && (t.queue != [] ==> s.queue != [])
            && (s.queue == [] && !s.aggregation.pc.Recheck? && !s.aggregation.pc.Finish? ==>
                  t.aggregation.open == s.aggregation.open && !t.aggregation.pc.Recheck? && !t.aggregation.pc.Finish?)
  {
    hide Conserved;
    if s.aggregation.pc.Recheck? {
    } else if s.queue != [] {
      assert s.queue[0] == s.generation;
    }
  }

  lemma {:induction false} QueueIsAggregated(s: State) returns (n: nat)
    requires Invariant(s) && !s.frozen
    ensures var t := Steps(s, Aggregation(true), n);
            && Invariant(t) && !t.frozen && t.queue == [] && t.aggregation.pc.Wait? && t.meter == s.meter
            && t.ledger.Lost() == s.ledger.Lost() && t.ledger.dropped == s.ledger.dropped
            && t.ledger.admitted == s.ledger.admitted
            && t.aggregation.open == (if s.queue != [] || s.aggregation.pc.Recheck? || s.aggregation.pc.Finish? then 0
                                      else s.aggregation.open)
    decreases QueueToGo(s)
  {
    hide Invariant, Next, QueueToGo;
    if s.queue == [] && s.aggregation.pc.Wait? {
      n := 0;
    } else {
      var a := Aggregation(true);
      InvariantStep(s, a);
      QueueStep(s);
      var m := QueueIsAggregated(Next(s, a));
      StepsSplit(s, a, m);
      n := m + 1;
    }
  }

  /**
   * With the gate open every queued sample gets into a record: from every point of every run from rest with the gate
   * open and no sample in the meter task's hands, the aggregation task alone gets to where all admitted samples but the
   * dropped ones are recorded or in its open interval, and in a record if one was queued.
   */
  lemma QueuedIsRecorded(actions: seq<Action>, states: seq<State>, n: nat) returns (k: nat)
    requires |states| > 0 && AtRest(states[0]) && RunFrom(states[0], actions, states) && n < |states|
    requires !states[n].frozen && !InHand(states[n])
    ensures var t := Steps(states[n], Aggregation(true), k);
            && t.queue == [] && t.ledger.admitted == states[n].ledger.admitted
            && t.ledger.recorded + t.aggregation.open == t.ledger.admitted - FullSends(states, actions, n)
            && (states[n].queue != [] ==> t.aggregation.open == 0)
  {
    InvariantAtRest(states[0]);
    InvariantRun(states[0], actions, states, n);
    OpenGateLosesNothing(actions, states, n);
    DroppedAtFullQueueOnly(actions, states, n);
    k := QueueIsAggregated(states[n]);
  }

  /**
   * A concrete run that contradicts lossless draining: two samples are admitted with the gate open, the
   * first is aggregated, the second arrives in the queue after the freeze while aggregation is blocked on
   * it. Aggregation reports quiesced although both are in no record and in no counter.
   */
  lemma AdmittedSamplesCanVanish() returns (actions: seq<Action>, states: seq<State>)
    ensures RunFrom(INITIAL, actions, states)
    ensures states[|actions|].quiesced && states[|actions|].ledger == Ledger(2, 0, 0, 0, 1, 1)
  {
    actions, states := [], [INITIAL];
    // the first sample is sent and aggregated; aggregation blocks on the queue again
    FirstSample();
    actions, states := Repeat(INITIAL, actions, states, Meter, 6);
    actions, states := Repeat(INITIAL, actions, states, Aggregation(false), 4);
    // the second is admitted, frozen out, and sent all the same
    SecondSample();
    actions, states := Repeat(INITIAL, actions, states, Meter, 5);
    actions, states := Then(INITIAL, actions, states, Freeze);
    actions, states := Repeat(INITIAL, actions, states, Meter, 3);
    // it is received and thrown away with the open interval; then an empty drain
    ThrownAway();
    actions, states := Repeat(INITIAL, actions, states, Aggregation(false), 7);
  }

  /** Aggregation blocked on an empty queue with one sample in its open interval. */
  const WAITING := INITIAL.(inFlight := 1, meter := MeterTask(LeaveFlight, 0, false),
                            aggregation := AggregationTask(Wait, 0, false, 0, 0, 1),
                            ledger := Ledger(1, 0, 0, 0, 0, 0))

  const FROZEN_OUT := WAITING.(frozen := true, inFlight := 0, queue := [0], meter := MeterTask(CheckFreeze, 0, false),
                               ledger := Ledger(2, 0, 0, 0, 0, 0))

  lemma FirstSample()
    ensures Steps(Steps(INITIAL, Meter, 6), Aggregation(false), 4) == WAITING
  {
    assert Steps(INITIAL, Meter, 3) == INITIAL.(inFlight := 1, meter := MeterTask(CheckAdmission, 0, false));
    var sent := INITIAL.(inFlight := 1, queue := [0], meter := MeterTask(LeaveFlight, 0, false),
                         ledger := Ledger(1, 0, 0, 0, 0, 0));
    assert Steps(INITIAL, Meter, 6) == sent;
    assert Steps(sent, Aggregation(false), 2)
        == sent.(queue := [], aggregation := AggregationTask(Recheck, 0, false, 0, 0, 0));
  }

  lemma SecondSample()
    ensures Steps(Next(Steps(WAITING, Meter, 5), Freeze), Meter, 3) == FROZEN_OUT
  {
    assert Steps(WAITING, Meter, 3) == WAITING.(meter := MeterTask(CaptureGeneration, 0, false));
    var polling := WAITING.(meter := MeterTask(Poll, 0, true), ledger := Ledger(2, 0, 0, 0, 0, 0));
    assert Steps(WAITING, Meter, 5) == polling;
    assert Steps(polling.(frozen := true), Meter, 1) == polling.(frozen := true, meter := MeterTask(Send, 0, true));
  }

  lemma ThrownAway()
    ensures var s := Steps(FROZEN_OUT, Aggregation(false), 7);
            s.quiesced && s.ledger == Ledger(2, 0, 0, 0, 1, 1)
  {
    var lost := FROZEN_OUT.(queue := [], aggregation := AggregationTask(CheckGate, 0, false, 0, 0, 0),
                            ledger := Ledger(2, 0, 0, 0, 1, 1));
    assert Steps(FROZEN_OUT, Aggregation(false), 2) == lost;
    assert Steps(FROZEN_OUT, Aggregation(false), 4).aggregation == AggregationTask(Drain, 0, true, 0, 0, 0);
  }
}
