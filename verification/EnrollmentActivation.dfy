/**
 * Staged enrollment: the cursors are made durable first and the record that requires them last
 * (activatePendingEnrollment, stageEnrollmentActivation, the boot check of loadOrMigrateEnrollment and
 * the monotone setters of src/config/ConfigService.cpp; the floor of src/app/Application.cpp).
 */
module EnrollmentActivation {
  import opened Bytes
  import opened RecordCodec
  import opened BlobStores
  import opened AtomicConfigStore

  const ENROLLMENT_SLOTS := SlotKeys(EnrollA, EnrollB, EnrollActive)
  const MAXIMUM_RESET_BOUNDARY: u64 := 9_223_372_036_854_775_805

  datatype Cursor = ServerAck | ServerMax | RemoveSeq | EventAck | ServerCfg | DataGen | ResetFloor

  /** Durable 64-bit preferences; an absent one reads as its default, zero. */
  type Cursors = map<Cursor, u64>

  function Get(c: Cursors, k: Cursor): u64 { if k in c then c[k] else 0 }

  /** The part of an enrollment record the activation protocol uses. */
  datatype Activation = Activation(policyBound: bool, pending: bool, sourceGeneration: u64, target: u64,
                                   boundary: u64, floor: u64)

  /** The number is stored, and the operation says that it failed. */
  const UNREPORTED: seq<Outcome> := [Outcome(false, New, false)]

  /** A record of an unenrolled device makes no demands. */
  const TOMBSTONE := Activation(false, false, 0, 0, 0, 0)

  function Max(a: u64, b: u64): u64 { if a >= b then a else b }

  // ----- what a record demands of the cursors ------------------------------------------------

  /** The boot check: an active policy-bound record refuses to start below any of its five marks. */
  predicate Covered(c: Cursors, a: Activation)
  {
    a.policyBound && !a.pending ==>
      && Get(c, DataGen) >= a.target
      && Get(c, ResetFloor) >= a.boundary
      && Get(c, ServerAck) >= a.floor
      && Get(c, ServerMax) >= a.floor
      && Get(c, RemoveSeq) >= a.floor
  }

  /** The guard of activatePendingEnrollment. */
  predicate Activatable(c: Cursors, a: Activation, floor: u64)
  {
    && floor <= MAXIMUM_RESET_BOUNDARY
    && floor >= a.boundary
    && Get(c, DataGen) <= a.target
    && Get(c, ResetFloor) <= a.boundary
    && Get(c, ServerAck) <= floor
    && Get(c, ServerMax) <= floor
    && Get(c, RemoveSeq) <= floor
  }

  /** The floor the application computes before it activates. */
  function ActivationFloor(c: Cursors, a: Activation, localFloor: u64): u64
  {
    Max(a.boundary, Max(localFloor, Max(Get(c, ServerAck), Max(Get(c, ServerMax), Get(c, RemoveSeq)))))
  }

  /** Whether the staged activation can go ahead at all. */
  predicate Retryable(c: Cursors, a: Activation, localFloor: u64)
  {
    && Get(c, DataGen) <= a.target
    && Get(c, ResetFloor) <= a.boundary
    && a.boundary <= MAXIMUM_RESET_BOUNDARY && localFloor <= MAXIMUM_RESET_BOUNDARY
    && Get(c, ServerAck) <= MAXIMUM_RESET_BOUNDARY
    && Get(c, ServerMax) <= MAXIMUM_RESET_BOUNDARY
    && Get(c, RemoveSeq) <= MAXIMUM_RESET_BOUNDARY
  }

  /** The floor that begin computes passes the guard exactly when the activation can go ahead. */
  lemma FloorPassesGuard(c: Cursors, a: Activation, localFloor: u64)
    ensures Activatable(c, a, ActivationFloor(c, a, localFloor)) <==> Retryable(c, a, localFloor)
  {
  }

  function Activated(a: Activation, floor: u64): Activation
  {
    a.(pending := false, floor := floor)
  }

  /** The value activation gives each cursor. */
  function ActivatedCursor(k: Cursor, a: Activation, floor: u64): u64
  {
    match k
    case ServerAck => floor
    case ServerMax => floor
    case RemoveSeq => floor
    case EventAck => 0
    case ServerCfg => 0
    case DataGen => a.target
    case ResetFloor => a.boundary
  }

  // ----- states and steps --------------------------------------------------------------------

  /** The copies in memory: cursors and the staged activation, if any. */
  datatype Memory = Memory(cursors: Cursors, pending: Option<Activation>)

  /** `memory` is None while the device is off or has refused to start. */
  datatype State = State(view: View, durable: Cursors, memory: Option<Memory>)

  /** Serialisation of enrollment records, with the one property the protocol needs. */
  datatype Format = Format(parse: seq<byte> -> Option<Activation>, serialize: Activation -> seq<byte>)
  {
    ghost predicate Valid()
    {
      forall a :: 0 < |serialize(a)| <= MAXIMUM_PAYLOAD_SIZE && parse(serialize(a)) == Some(a)
    }

    function ActivationAt(r: Option<Record>): Option<Activation>
    {
      if r.Some? then parse(r.value.payload) else None
    }
  }

  function ActiveActivation(f: Format, v: View): Option<Activation>
  {
    if ActiveOf(v).Some? then f.parse(ActiveOf(v).value.record.payload) else None
  }

  /** Every record in either slot that would be checked at boot is satisfied by `c`. */
  ghost predicate SlotsCovered(f: Format, v: View, c: Cursors)
  {
    forall s: Slot :: f.ActivationAt(v.At(s)).Some? ==> Covered(c, f.ActivationAt(v.At(s)).value)
  }

  ghost predicate Safe(f: Format, s: State)
  {
    && SlotsCovered(f, s.view, s.durable)
    && (s.memory.Some? ==> SlotsCovered(f, s.view, s.memory.value.cursors))
  }

  /** Staging commits a pending record, and only one that does not step back behind the running cursors. */
  ghost predicate StageLeaves(f: Format, s: State, t: State, a: Activation)
  {
    && t.durable == s.durable
    && (t.memory.Some? ==> s.memory.Some? && t.memory.value.cursors == s.memory.value.cursors)
    && (t.memory.Some? && t.memory != s.memory ==>
          t.memory.value.pending == Some(a) && ActiveActivation(f, t.view) == Some(a))
    && (t.view == s.view
        || (&& a.policyBound && a.pending && CommitLeaves(s.view, t.view, f.serialize(a))
            && s.memory.Some? && a.sourceGeneration == Get(s.memory.value.cursors, DataGen) <= a.target
            && Get(s.memory.value.cursors, ResetFloor) <= a.boundary))
  }

  /** Activation moves cursors only to their new values, and touches the slots only after all of them. */
  ghost predicate ActivateLeaves(f: Format, s: State, t: State, floor: u64)
  {
    || (t.view == s.view && t.durable == s.durable && (t.memory.Some? ==> t.memory == s.memory))
    || (&& s.memory.Some? && s.memory.value.pending.Some?
        && var a := s.memory.value.pending.value;
        && Activatable(s.memory.value.cursors, a, floor)
        && (forall k ::
              || Get(t.durable, k) == Get(s.durable, k)
              || Get(t.durable, k) == ActivatedCursor(k, a, floor))
        && (t.view != s.view || t.memory.Some? ==>
              forall k :: Get(t.durable, k) == ActivatedCursor(k, a, floor))
        && (t.view == s.view || CommitLeaves(s.view, t.view, f.serialize(Activated(a, floor))))
        && (t.memory.Some? ==>
              && t.memory == Some(Memory(t.durable, None))
              && ActiveActivation(f, t.view) == Some(Activated(a, floor))))
  }

  /** A setter raises one cursor above its copy in memory, or leaves everything alone. */
  ghost predicate SetLeaves(s: State, t: State, k: Cursor, value: u64)
  {
    && t.view == s.view
    && (t.durable == s.durable
        || (s.memory.Some? && value > Get(s.memory.value.cursors, k) && t.durable == s.durable[k := value]))
    && (t.memory.Some? ==>
          && s.memory.Some?
          && (t.memory == s.memory
              || (value > Get(s.memory.value.cursors, k)
                  && t.memory.value.cursors == s.memory.value.cursors[k := value])))
  }

  /** Boot may roll back a record that does not parse, or write a tombstone where there is none. */
  ghost predicate RecordLeaves(f: Format, v: View, w: View)
  {
    || CommitLeaves(v, w, f.serialize(TOMBSTONE))
    || (ActiveOf(v).Some? && RollbackLeaves(v, w, ActiveOf(v).value.record.generation))
  }

  /** The cursors as boot loads them: an absent maximum reads as the acknowledgement. */
  function Loaded(c: Cursors): Cursors
  {
    c[ServerMax := if ServerMax in c then c[ServerMax] else Get(c, ServerAck)]
  }

  function PendingOf(a: Activation): Option<Activation> { if a.pending then Some(a) else None }

  /** Boot reads the durable cursors and the active record into memory, if it accepts them. */
  ghost predicate BootLeaves(f: Format, s: State, t: State)
  {
    && t.durable == s.durable
    && RecordLeaves(f, s.view, t.view)
    && (ActiveActivation(f, s.view).Some? ==> t.view == s.view)
    && (t.memory.Some? ==>
          var a := ActiveActivation(f, t.view);
          && a.Some? && Covered(t.durable, a.value)
          && t.memory == Some(Memory(Loaded(t.durable), PendingOf(a.value))))
  }

  datatype Event = Boot | Stage(a: Activation) | Activate(floor: u64) | Set(k: Cursor, value: u64) | PowerOff

  ghost predicate EventLeaves(f: Format, e: Event, s: State, t: State)
  {
    match e
    case Boot => BootLeaves(f, s, t)
    case Stage(a) => StageLeaves(f, s, t, a)
    case Activate(floor) => ActivateLeaves(f, s, t, floor)
    case Set(k, value) => SetLeaves(s, t, k, value)
    case PowerOff => t == s.(memory := None)
  }

  lemma SafeThroughEvent(f: Format, e: Event, s: State, t: State)
    requires f.Valid() && Safe(f, s) && EventLeaves(f, e, s, t)
    ensures Safe(f, t)
  {
    match e {
      case Boot => SafeThroughBoot(f, s, t);
      case Stage(a) => SafeThroughStage(f, s, t, a);
      case Activate(floor) => SafeThroughActivate(f, s, t, floor);
      case Set(k, value) => SafeThroughSet(f, s, t, k, value);
      case PowerOff =>
    }
  }

  lemma SafeThroughBoot(f: Format, s: State, t: State)
    requires f.Valid() && Safe(f, s) && BootLeaves(f, s, t)
    ensures Safe(f, t)
  {
    forall x: Slot
      ensures t.view.At(x) == s.view.At(x) || f.ActivationAt(t.view.At(x)).None?
              || f.ActivationAt(t.view.At(x)) == Some(TOMBSTONE)
    {
      if CommitLeaves(s.view, t.view, f.serialize(TOMBSTONE)) {
        SlotsAfterCommit(s.view, t.view, f.serialize(TOMBSTONE), x);
      }
    }
  }

  lemma SafeThroughStage(f: Format, s: State, t: State, a: Activation)
    requires f.Valid() && Safe(f, s) && StageLeaves(f, s, t, a)
    ensures Safe(f, t)
  {
    if t.view != s.view {
      forall x: Slot
        ensures t.view.At(x) == s.view.At(x) || f.ActivationAt(t.view.At(x)).None?
                || f.ActivationAt(t.view.At(x)) == Some(a)
      {
        SlotsAfterCommit(s.view, t.view, f.serialize(a), x);
      }
    }
  }

  lemma SafeThroughActivate(f: Format, s: State, t: State, floor: u64)
    requires f.Valid() && Safe(f, s) && ActivateLeaves(f, s, t, floor)
    ensures Safe(f, t)
  {
    if !(t.view == s.view && t.durable == s.durable && (t.memory.Some? ==> t.memory == s.memory)) {
      var a := s.memory.value.pending.value;
      forall x: Slot
        ensures t.view.At(x) == s.view.At(x) || f.ActivationAt(t.view.At(x)).None?
                || f.ActivationAt(t.view.At(x)) == Some(Activated(a, floor))
      {
        if t.view != s.view {
          SlotsAfterCommit(s.view, t.view, f.serialize(Activated(a, floor)), x);
        }
      }
      forall x: Slot | f.ActivationAt(t.view.At(x)).Some?
        ensures Covered(t.durable, f.ActivationAt(t.view.At(x)).value)
      {
        if t.view.At(x) == s.view.At(x) {
          assert Covered(s.memory.value.cursors, f.ActivationAt(s.view.At(x)).value);
          assert Covered(s.durable, f.ActivationAt(s.view.At(x)).value);
        }
      }
    }
  }

  lemma SafeThroughSet(f: Format, s: State, t: State, k: Cursor, value: u64)
    requires Safe(f, s) && SetLeaves(s, t, k, value)
    ensures Safe(f, t)
  {
    forall x: Slot | f.ActivationAt(t.view.At(x)).Some?
      ensures Covered(t.durable, f.ActivationAt(t.view.At(x)).value)
      ensures t.memory.Some? ==> Covered(t.memory.value.cursors, f.ActivationAt(t.view.At(x)).value)
    {
      assert Covered(s.durable, f.ActivationAt(s.view.At(x)).value);
    }
  }

  ghost predicate Run(f: Format, events: seq<Event>, states: seq<State>)
  {
    && |states| == |events| + 1
    && states[0].view == View(None, None, None) && states[0].memory.None?
    && forall i :: 0 <= i < |events| ==> EventLeaves(f, events[i], states[i], states[i + 1])
  }

  /**
   * In every run of boots, stagings, activations, cuts, retries and monotone cursor updates from a device
   * without enrollment records, no boot finds an active policy-bound record whose data generation, reset
   * boundary, acknowledgement, maximum or removal cursor is missing.
   */
  lemma {:induction false} NoBootFindsCursorsMissing(f: Format, events: seq<Event>, states: seq<State>,
                                                    n: nat)
    requires f.Valid() && Run(f, events, states) && n < |states|
    ensures Safe(f, states[n])
    ensures var a := ActiveActivation(f, states[n].view);
            a.Some? ==> Covered(states[n].durable, a.value)
  {
    if n > 0 {
      NoBootFindsCursorsMissing(f, events, states, n - 1);
      SafeThroughEvent(f, events[n - 1], states[n - 1], states[n]);
    }
    if ActiveOf(states[n].view).Some? {
      var s := ActiveOf(states[n].view).value.slot;
      assert f.ActivationAt(states[n].view.At(s)) == f.parse(ActiveOf(states[n].view).value.record.payload);
    }
  }

  // ----- retrying ------------------------------------------------------------------------------

  /** The record `a` is staged and active, and what boot would load lets it be activated. */
  ghost predicate Awaiting(f: Format, s: State, a: Activation)
  {
    ActiveActivation(f, s.view) == Some(a) && a.pending && Retryable(Loaded(s.durable), a, 0)
  }

  /** The record is active with the floor of some activation. */
  ghost predicate Completed(f: Format, s: State, a: Activation)
  {
    exists floor :: ActivatedWith(f, s, a, floor)
  }

  ghost predicate ActivatedWith(f: Format, s: State, a: Activation, floor: u64)
  {
    ActiveActivation(f, s.view) == Some(Activated(a, floor))
  }

  /** What is in memory came from a boot, or from an activation that completed. */
  ghost predicate FreshlyBooted(f: Format, s: State)
  {
    s.memory.Some? ==>
      || s.memory.value.pending.None?
      || (&& s.memory.value.cursors == Loaded(s.durable)
          && s.memory.value.pending == ActiveActivation(f, s.view))
  }

  lemma AwaitingThroughBoot(f: Format, s: State, t: State, a: Activation)
    requires BootLeaves(f, s, t)
    ensures FreshlyBooted(f, t)
    ensures Awaiting(f, s, a) ==> Awaiting(f, t, a)
    ensures Completed(f, s, a) ==> Completed(f, t, a)
    ensures Awaiting(f, t, a) && t.memory.Some? ==> t.memory == Some(Memory(Loaded(t.durable), Some(a)))
  {
    if floor :| ActivatedWith(f, s, a, floor) {
      assert ActivatedWith(f, t, a, floor);
    }
  }

  lemma AwaitingThroughActivate(f: Format, s: State, t: State, a: Activation, floor: u64)
    requires f.Valid() && ActivateLeaves(f, s, t, floor) && FreshlyBooted(f, s)
    ensures FreshlyBooted(f, t)
    ensures Awaiting(f, s, a) ==> Awaiting(f, t, a) || Completed(f, t, a)
    ensures Completed(f, s, a) ==> Completed(f, t, a)
  {
    if !(t.view == s.view && t.durable == s.durable && (t.memory.Some? ==> t.memory == s.memory)) {
      if floor0 :| ActivatedWith(f, s, a, floor0) {
        assert s.memory.value.pending == ActiveActivation(f, s.view);
        CommittedIsActive(f, s, t, Activated(a, floor0), floor);
        assert ActivatedWith(f, t, a, floor0) || ActivatedWith(f, t, a, floor);
      }
      if Awaiting(f, s, a) {
        assert s.memory.value.pending == Some(a);
        CommittedIsActive(f, s, t, a, floor);
        MixedStaysRetryable(s.durable, t.durable, a, floor);
        assert ActivatedWith(f, t, a, floor) || Awaiting(f, t, a);
      }
    } else if floor0 :| ActivatedWith(f, s, a, floor0) {
      assert ActivatedWith(f, t, a, floor0);
    }
  }

  /** Cursors of which some have their activated value and the others are as they were can be activated again. */
  lemma MixedStaysRetryable(c: Cursors, d: Cursors, a: Activation, floor: u64)
    requires Retryable(Loaded(c), a, 0) && floor <= MAXIMUM_RESET_BOUNDARY
    requires forall k :: Get(d, k) == Get(c, k) || Get(d, k) == ActivatedCursor(k, a, floor)
    ensures Retryable(Loaded(d), a, 0)
  {
    assert Get(c, ServerMax) <= Get(Loaded(c), ServerMax);
    assert forall k: Cursor :: k != ServerMax ==> Get(Loaded(c), k) == Get(c, k) && Get(Loaded(d), k) == Get(d, k);
    assert Get(Loaded(d), ServerMax) == Get(d, ServerMax) || Get(Loaded(d), ServerMax) == Get(d, ServerAck);
  }

  /** A commit of the activated record, cut or not, leaves the staged one or the activated one active. */
  lemma CommittedIsActive(f: Format, s: State, t: State, a: Activation, floor: u64)
    requires f.Valid() && ActiveActivation(f, s.view) == Some(a)
    requires t.view == s.view || CommitLeaves(s.view, t.view, f.serialize(Activated(a, floor)))
    ensures ActiveActivation(f, t.view) in {Some(a), Some(Activated(a, floor))}
  {
    if t.view != s.view {
      CommitIsAtomic(s.view, t.view, f.serialize(Activated(a, floor)));
    }
  }

  /** Runs of boots, activations and power losses, as start-up makes them. */
  ghost predicate StartUps(f: Format, events: seq<Event>, states: seq<State>)
  {
    && |states| == |events| + 1
    && forall i :: 0 <= i < |events| ==>
         !events[i].Stage? && !events[i].Set? && EventLeaves(f, events[i], states[i], states[i + 1])
  }

  /**
   * A staged activation survives any number of cuts. Over every run of boots, activations cut anywhere and power
   * losses: the staged record stays active until an activated one has taken its place for good, which is then
   * covered by the durable cursors; and whenever a boot finds it still staged, it is pending in memory and the floor
   * computed from the loaded cursors passes the guard again.
   */
  lemma {:induction false} ActivationSurvivesCuts(f: Format, events: seq<Event>, states: seq<State>, n: nat,
                                                  a: Activation)
    requires f.Valid() && StartUps(f, events, states) && n < |states|
    requires states[0].memory.None? && Safe(f, states[0]) && Awaiting(f, states[0], a)
    ensures Safe(f, states[n]) && FreshlyBooted(f, states[n])
    ensures Awaiting(f, states[n], a) || Completed(f, states[n], a)
    ensures forall m :: 0 <= m < n && Completed(f, states[m], a) ==> Completed(f, states[n], a)
    ensures Completed(f, states[n], a) ==> Covered(states[n].durable, ActiveActivation(f, states[n].view).value)
    ensures Awaiting(f, states[n], a) && states[n].memory.Some? ==> Resumes(states[n], a)
  {
    hide Safe, Awaiting, EventLeaves, Covered, Resumes;
    if n > 0 {
      var s, t, e := states[n - 1], states[n], events[n - 1];
      ActivationSurvivesCuts(f, events, states, n - 1, a);
      assert EventLeaves(f, e, s, states[n - 1 + 1]);
      SafeThroughEvent(f, e, s, t);
      StartUpStep(f, e, s, t, a);
    }
    CompletedIsCovered(f, states[n], a);
  }

  /** Pending in memory, and activatable with the floor that start-up computes, whatever the card's floor. */
  ghost predicate Resumes(s: State, a: Activation)
    requires s.memory.Some?
  {
    && s.memory.value.pending == Some(a)
    && forall localFloor: u64 :: localFloor <= MAXIMUM_RESET_BOUNDARY ==>
         Activatable(s.memory.value.cursors, a, ActivationFloor(s.memory.value.cursors, a, localFloor))
  }

  lemma StartUpStep(f: Format, e: Event, s: State, t: State, a: Activation)
    requires f.Valid() && EventLeaves(f, e, s, t) && !e.Stage? && !e.Set? && FreshlyBooted(f, s)
    requires Awaiting(f, s, a) || Completed(f, s, a)
    requires Awaiting(f, s, a) && s.memory.Some? ==> Resumes(s, a)
    ensures FreshlyBooted(f, t)
    ensures Awaiting(f, t, a) || Completed(f, t, a)
    ensures Completed(f, s, a) ==> Completed(f, t, a)
    ensures Awaiting(f, t, a) && t.memory.Some? ==> Resumes(t, a)
  {
    match e {
      case Boot => AwaitingThroughBoot(f, s, t, a);
      case Activate(floor) => AwaitingThroughActivate(f, s, t, a, floor);
      case PowerOff =>
        if floor :| ActivatedWith(f, s, a, floor) {
          assert ActivatedWith(f, t, a, floor);
        }
    }
  }

  lemma CompletedIsCovered(f: Format, s: State, a: Activation)
    requires Safe(f, s)
    ensures Completed(f, s, a) ==> Covered(s.durable, ActiveActivation(f, s.view).value)
  {
    if floor :| ActivatedWith(f, s, a, floor) {
      var x := ActiveOf(s.view).value.slot;
      assert f.ActivationAt(s.view.At(x)) == Some(Activated(a, floor));
    }
  }

  /**
   * One cut and one boot: the activated record is active and covered, or the same activation is pending and the
   * floor computed from the cursors in memory passes the guard.
   */
  lemma CutActivationCanBeRetried(f: Format, s: State, cut: State, t: State, a: Activation, localFloor: u64)
    requires f.Valid() && Safe(f, s) && FreshlyBooted(f, s)
    requires s.memory.Some? && s.memory.value.pending == Some(a) && a.pending
    requires Retryable(s.memory.value.cursors, a, localFloor)
    requires ActivateLeaves(f, s, cut, ActivationFloor(s.memory.value.cursors, a, localFloor))
    requires BootLeaves(f, cut.(memory := None), t) && t.memory.Some?
    ensures || (Completed(f, t, a) && Covered(t.durable, ActiveActivation(f, t.view).value))
            || (Awaiting(f, t, a) && Resumes(t, a))
  {
    var floor := ActivationFloor(s.memory.value.cursors, a, localFloor);
    var off := cut.(memory := None);
    AwaitingThroughActivate(f, s, cut, a, floor);
    SafeThroughEvent(f, Activate(floor), s, cut);
    StartUpStep(f, PowerOff, cut, off, a);
    StartUpStep(f, Boot, off, t, a);
    SafeThroughEvent(f, PowerOff, cut, off);
    SafeThroughEvent(f, Boot, off, t);
    CompletedIsCovered(f, t, a);
  }

  /**
   * What staging leaves awaits its activation if and only if the durable cursors, which the guard in memory did not
   * look at, are behind the staged marks as well; so it does when none of them is ahead of its copy in memory.
   */
  lemma StagedIsAwaiting(f: Format, s: State, t: State, a: Activation)
    requires f.Valid() && StageLeaves(f, s, t, a) && t.memory.Some? && t.memory != s.memory && t.view != s.view
    ensures Awaiting(f, t, a) <==> Retryable(Loaded(s.durable), a, 0)
    ensures (&& a.boundary <= MAXIMUM_RESET_BOUNDARY
             && (forall k :: Get(Loaded(s.durable), k) <= Get(s.memory.value.cursors, k))
             && (forall k :: k in {ServerAck, ServerMax, RemoveSeq} ==>
                               Get(s.memory.value.cursors, k) <= MAXIMUM_RESET_BOUNDARY)) ==> Awaiting(f, t, a)
  {
    var c := Loaded(s.durable);
    if forall k :: Get(c, k) <= Get(s.memory.value.cursors, k) {
      assert Get(c, DataGen) <= a.target && Get(c, ResetFloor) <= a.boundary;
      assert Get(c, ServerAck) <= Get(s.memory.value.cursors, ServerAck);
      assert Get(c, ServerMax) <= Get(s.memory.value.cursors, ServerMax);
      assert Get(c, RemoveSeq) <= Get(s.memory.value.cursors, RemoveSeq);
    }
  }

  /** Staged behind a durable cursor: once the power has been lost, no run of start-ups ever completes it. */
  lemma {:induction false} StagedBehindIsStuck(f: Format, events: seq<Event>, states: seq<State>, n: nat, a: Activation)
    requires StartUps(f, events, states) && n < |states|
    requires states[0].memory.None? && ActiveActivation(f, states[0].view) == Some(a) && a.pending
    requires !Awaiting(f, states[0], a)
    ensures states[n].view == states[0].view && states[n].durable == states[0].durable && !Completed(f, states[n], a)
    ensures states[n].memory.Some? ==> states[n].memory == Some(Memory(Loaded(states[0].durable), Some(a)))
  {
    if n > 0 {
      StagedBehindIsStuck(f, events, states, n - 1, a);
      assert EventLeaves(f, events[n - 1], states[n - 1], states[n - 1 + 1]);
    }
  }

  // ----- the code --------------------------------------------------------------------------

  class EnrollmentService {
    const store: BlobStore
    const format: Format
    var durable: Cursors
    var memory: Option<Memory>

    constructor (store: BlobStore, format: Format, durable: Cursors)
      ensures this.store == store && this.format == format && this.durable == durable && memory.None?
    {
      this.store := store;
      this.format := format;
      this.durable := durable;
      memory := None;
    }

    /** Memory is lost with the power. */
    function StateNow(): State
      reads this, store
    {
      State(ViewOf(store.blobs, ENROLLMENT_SLOTS), durable, if store.on then memory else None)
    }

    /** writeULong64Checked: the hardware stores the number entirely or not at all. */
    method PutChecked(k: Cursor, value: u64) returns (ok: bool)
      modifies `durable, store`on, store`script
      ensures durable == old(durable) || durable == old(durable)[k := value]
      ensures ok ==> store.on && durable == old(durable)[k := value]
      ensures store.on ==> old(store.on)
      ensures !old(store.on) ==> durable == old(durable)
      ensures old(store.script) == [] ==> store.script == [] && ok == store.on == old(store.on)
      ensures old(store.on) && old(store.script) == UNREPORTED ==>
                !ok && store.on && store.script == [] && durable == old(durable)[k := value]
    {
      if !store.on {
        return false;
      }
      var o := store.NextOutcome();
      if o.left.New? {
        durable := durable[k := value];
      }
      store.on := !o.cut;
      ok := o.reported && store.on && k in durable && durable[k] == value;
      if ok {
        assert durable == old(durable)[k := value];
      }
    }

    /** commitEnrollmentActivationRecord: commit the record, read it back and compare. */
    method CommitActivationRecord(a: Activation, active: bool) returns (ok: bool)
      requires format.Valid()
      modifies store
      ensures CommitLeaves(ViewOf(old(store.blobs), ENROLLMENT_SLOTS), ViewOf(store.blobs, ENROLLMENT_SLOTS),
                           format.serialize(a))
      // what it never writes
      ensures (|| !a.policyBound || a.pending == active || a.target < a.sourceGeneration
               || a.target > MAXIMUM_RESET_BOUNDARY || a.boundary > MAXIMUM_RESET_BOUNDARY
               || (active && a.floor < a.boundary) || (!active && a.floor > 0)) ==>
                store.blobs == old(store.blobs) && !ok
      ensures ok ==>
                && store.on && ActiveActivation(format, ViewOf(store.blobs, ENROLLMENT_SLOTS)) == Some(a)
      ensures store.on ==> old(store.on)
      ensures (&& old(store.on) && old(store.script) == [] && Recordable(a, active)
               && Committable(ViewOf(old(store.blobs), ENROLLMENT_SLOTS), format.serialize(a))) ==>
                ok && store.script == []
    {
      if !Recordable(a, active) {
        return false;
      }
      var committed := Commit(store, ENROLLMENT_SLOTS, format.serialize(a));
      if committed.None? {
        return false;
      }
      var verified := LoadActive(store, ENROLLMENT_SLOTS);
      ok := && verified.Some? && verified.value.active.record.generation == committed.value.record.generation
            && format.parse(verified.value.active.record.payload) == Some(a);
    }

    /** The conditions under which a record may be written. */
    predicate Recordable(a: Activation, active: bool)
    {
      && a.policyBound && a.pending != active
      && a.target >= a.sourceGeneration
      && a.target <= MAXIMUM_RESET_BOUNDARY && a.boundary <= MAXIMUM_RESET_BOUNDARY
      && (if active then a.floor >= a.boundary else a.floor == 0)
    }

    /** stageEnrollmentActivation. */
    method StageActivation(target: u64, boundary: u64) returns (ok: bool, ghost a: Activation)
      requires format.Valid()
      modifies this, store
      ensures StageLeaves(format, old(StateNow()), StateNow(), a)
      ensures ok ==>
                && store.on && old(memory).Some?
                && a == Activation(true, true, Get(old(memory).value.cursors, DataGen), target, boundary, 0)
                && memory == Some(Memory(old(memory).value.cursors, Some(a)))
                && Get(old(memory).value.cursors, DataGen) <= target
                && Get(old(memory).value.cursors, ResetFloor) <= boundary
                && ActiveActivation(format, StateNow().view) == Some(a)
      ensures (&& old(store.on) && old(store.script) == [] && old(memory).Some?
               && Get(old(memory).value.cursors, DataGen) <= target <= MAXIMUM_RESET_BOUNDARY
               && Get(old(memory).value.cursors, ResetFloor) <= boundary <= MAXIMUM_RESET_BOUNDARY
               && LargestGeneration(old(StateNow()).view) + 1 < U64_LIMIT) ==> ok
    {
      a := Activation(true, true, 0, target, boundary, 0);
      if !store.on || memory.None? || target > MAXIMUM_RESET_BOUNDARY || boundary > MAXIMUM_RESET_BOUNDARY {
        return false, a;
      }
      var cursors := memory.value.cursors;
      var source := Get(cursors, DataGen);
      if target < source || boundary < Get(cursors, ResetFloor) {
        return false, a;
      }
      var activation := Activation(true, true, source, target, boundary, 0);
      a := activation;
      ok := CommitActivationRecord(activation, false);
      if ok {
        memory := Some(Memory(cursors, Some(activation)));
      }
    }

    /** Some cursors of `now` have their activated value and the others are as in `before`. */
    static ghost predicate Mixed(before: Cursors, now: Cursors, a: Activation, floor: u64)
    {
      forall k :: Get(now, k) == Get(before, k) || Get(now, k) == ActivatedCursor(k, a, floor)
    }

    /** The position of a cursor in the order of the durable writes. */
    static function Rank(k: Cursor): nat
    {
      match k
      case ServerAck => 0
      case ServerMax => 1
      case RemoveSeq => 2
      case EventAck => 3
      case ServerCfg => 4
      case DataGen => 5
      case ResetFloor => 6
    }

    static ghost predicate Moved(before: Cursors, now: Cursors, a: Activation, floor: u64, done: nat)
    {
      Mixed(before, now, a, floor) && forall k :: Rank(k) < done ==> Get(now, k) == ActivatedCursor(k, a, floor)
    }

    /** One durable write of an activation; the cursors before `k` have already moved. */
    method PutActivated(k: Cursor, a: Activation, floor: u64, ghost before: Cursors) returns (ok: bool)
      requires Moved(before, durable, a, floor, Rank(k))
      modifies `durable, store`on, store`script
      ensures Mixed(before, durable, a, floor)
      ensures ok ==> store.on && Moved(before, durable, a, floor, Rank(k) + 1)
      ensures store.on ==> old(store.on)
      ensures old(store.script) == [] ==> store.script == [] && ok == store.on == old(store.on)
    {
      ok := PutChecked(k, ActivatedCursor(k, a, floor));
      if ok {
        forall q | Rank(q) < Rank(k) + 1
          ensures Get(durable, q) == ActivatedCursor(q, a, floor)
        {
          assert Rank(q) == Rank(k) ==> q == k;
        }
      }
    }

    /** The durable writes of an activation, in their order. */
    method PersistCursors(a: Activation, floor: u64) returns (ok: bool)
      modifies `durable, store`on, store`script
      ensures Mixed(old(durable), durable, a, floor)
      ensures ok ==> store.on && forall k :: Get(durable, k) == ActivatedCursor(k, a, floor)
      ensures store.on ==> old(store.on)
      ensures old(store.script) == [] ==> store.script == [] && ok == store.on == old(store.on)
    {
      var order := [ServerAck, ServerMax, RemoveSeq, EventAck, ServerCfg, DataGen, ResetFloor];
      ok := store.on;
      for i := 0 to |order|
        invariant Moved(old(durable), durable, a, floor, i)
        invariant ok == store.on == old(store.on)
        invariant old(store.script) == [] ==> store.script == []
      {
        assert Rank(order[i]) == i;
        ok := PutActivated(order[i], a, floor, old(durable));
        if !ok {
          return false;
        }
      }
      assert forall k :: Rank(k) < |order|;
    }

    static predicate StartsOver(c: Cursors, a: Activation, floor: u64)
    {
      && Get(c, EventAck) == 0 && Get(c, ServerCfg) == 0
      && Get(c, DataGen) == a.target && Get(c, ResetFloor) == a.boundary
      && Get(c, ServerAck) == floor && Get(c, ServerMax) == floor && Get(c, RemoveSeq) == floor
    }

    lemma MovedStartsOver(c: Cursors, a: Activation, floor: u64)
      requires forall k :: Get(c, k) == ActivatedCursor(k, a, floor)
      ensures StartsOver(c, a, floor)
    {
    }

    /** activatePendingEnrollment up to the removal of the enrollment token. */
    method ActivatePending(floor: u64) returns (ok: bool)
      requires format.Valid()
      modifies this, store
      ensures ActivateLeaves(format, old(StateNow()), StateNow().(memory := if ok then memory else None), floor)
      ensures ok ==>
                && store.on && old(memory).Some? && old(memory).value.pending.Some?
                && memory.Some? && memory.value.pending.None?
                && ActiveActivation(format, StateNow().view) == Some(Activated(old(memory).value.pending.value, floor))
      // in storage and in memory, the server's positions start over and the others are where the record wants them
      ensures ok ==>
                memory.value.cursors == durable && StartsOver(durable, old(memory).value.pending.value, floor)
      ensures var s := old(StateNow());
              (&& old(store.script) == [] && s.memory.Some? && s.memory.value.pending.Some?
               && Activatable(s.memory.value.cursors, s.memory.value.pending.value, floor)
               && s.memory.value.pending.value.policyBound
               && s.memory.value.pending.value.sourceGeneration <= s.memory.value.pending.value.target
               && s.memory.value.pending.value.target <= MAXIMUM_RESET_BOUNDARY
               && s.memory.value.pending.value.boundary <= MAXIMUM_RESET_BOUNDARY
               && Committable(s.view, format.serialize(Activated(s.memory.value.pending.value, floor)))) ==> ok
    {
      if floor > MAXIMUM_RESET_BOUNDARY || !store.on || memory.None? || memory.value.pending.None? {
        return false;
      }
      var a := memory.value.pending.value;
      var cursors := memory.value.cursors;
      if || floor < a.boundary || Get(cursors, DataGen) > a.target || Get(cursors, ResetFloor) > a.boundary
         || Get(cursors, ServerAck) > floor || Get(cursors, ServerMax) > floor || Get(cursors, RemoveSeq) > floor {
        return false;
      }
      ghost var s := StateNow();
      var persisted := PersistCursors(a, floor);
      if !persisted {
        assert ActivateLeaves(format, s, StateNow().(memory := None), floor);
        return false;
      }
      MovedStartsOver(durable, a, floor);
      hide StartsOver, ActivatedCursor;
      ok := CommitActivationRecord(Activated(a, floor), true);
      if ok {
        memory := Some(Memory(durable, None));
      }
    }

    /**
     * The activation part of Application::begin: compute the floor, and refuse to start unless the
     * activation completes. `storageReady` stands for the card steps before it.
     */
    method ActivateAtBoot(localFloor: u64, storageReady: bool) returns (started: bool, ghost floor: u64)
      requires format.Valid()
      modifies this, store
      ensures ActivateLeaves(format, old(StateNow()), StateNow(), floor)
      ensures started ==> store.on && memory.Some? && memory.value.pending.None?
      ensures !started ==> memory.None?
      // it starts as it is when nothing is pending, and touches nothing when the card steps failed
      ensures var s := old(StateNow());
              && (s.memory.None? ==> !started && StateNow() == s)
              && (s.memory.Some? && s.memory.value.pending.None? ==> started && StateNow() == s)
              && (s.memory.Some? && s.memory.value.pending.Some? && !storageReady ==>
                    !started && durable == s.durable && store.blobs == old(store.blobs))
      // with storage ready and no faults, a retryable activation completes
      ensures var s := old(StateNow());
              (&& old(store.script) == [] && storageReady && s.memory.Some? && s.memory.value.pending.Some?
               && Retryable(s.memory.value.cursors, s.memory.value.pending.value, localFloor)
               && s.memory.value.pending.value.policyBound
               && s.memory.value.pending.value.sourceGeneration <= s.memory.value.pending.value.target
               && s.memory.value.pending.value.target <= MAXIMUM_RESET_BOUNDARY
               && s.memory.value.pending.value.boundary <= MAXIMUM_RESET_BOUNDARY
               && Committable(s.view, format.serialize(Activated(s.memory.value.pending.value, floor)))) ==> started
    {
      floor := 0;
      if memory.None? || !store.on {
        memory := None;
        return false, 0;
      }
      if memory.value.pending.None? {
        return true, 0;
      }
      var a := memory.value.pending.value;
      FloorPassesGuard(memory.value.cursors, a, localFloor);
      var activationFloor := ActivationFloor(memory.value.cursors, a, localFloor);
      floor := activationFloor;
      if !storageReady {
        memory := None;
        return false, floor;
      }
      started := ActivatePending(activationFloor);
      if !started {
        memory := None;
      }
    }

    /** The monotone setters: setServerAckSequence, setDataGeneration and their siblings. */
    method SetCursor(k: Cursor, value: u64) returns (ok: bool)
      modifies this, store`on, store`script
      ensures SetLeaves(old(StateNow()), StateNow(), k, value)
      ensures ok ==> old(memory).Some? && value >= Get(old(memory).value.cursors, k)
      ensures ok ==> memory.Some? && Get(memory.value.cursors, k) == value
      ensures old(store.on) && old(store.script) == [] && old(memory).Some? ==>
                (ok <==> value >= Get(old(memory).value.cursors, k)
                         && !(k.ResetFloor? && value == U64_LIMIT - 1 && value != Get(old(memory).value.cursors, k)))
      // stored, and not taken over into memory
      ensures (&& old(store.on) && old(store.script) == UNREPORTED && old(memory).Some? && !k.ResetFloor?
               && value > Get(old(memory).value.cursors, k)) ==>
                !ok && store.on && store.script == [] && durable == old(durable)[k := value] && memory == old(memory)
    {
      if !store.on || memory.None? {
        return false;
      }
      var current := Get(memory.value.cursors, k);
      if value < current {
        return false;
      }
      if value == current {
        return true;
      }
      if k.ResetFloor? && value == U64_LIMIT - 1 {
        return false;
      }
      ok := PutChecked(k, value);
      if ok {
        memory := Some(memory.value.(cursors := memory.value.cursors[k := value]));
      }
    }

    /**
     * A setter that stores its value and fails before memory has it, and a staging below that value: the guard in
     * memory passes, the record is active, and it is not one that a boot can activate.
     */
    method StageBehindSetter(value: u64, target: u64, boundary: u64) returns (staged: bool, ghost a: Activation)
      requires format.Valid() && store.on && store.script == UNREPORTED && memory.Some?
      requires Get(memory.value.cursors, DataGen) <= target < value && target <= MAXIMUM_RESET_BOUNDARY
      requires Get(memory.value.cursors, ResetFloor) <= boundary <= MAXIMUM_RESET_BOUNDARY
      requires LargestGeneration(StateNow().view) + 1 < U64_LIMIT
      modifies this, store
      ensures staged && ActiveActivation(format, StateNow().view) == Some(a) && a.pending
      ensures a.target == target && Get(durable, DataGen) == value && !Awaiting(format, StateNow(), a)
    {
      var _ := SetCursor(DataGen, value);
      staged, a := StageActivation(target, boundary);
    }

    /** None of the three keys of the enrollment store is present. */
    static ghost predicate Blank(blobs: Blobs)
    {
      EnrollA !in blobs && EnrollB !in blobs && EnrollActive !in blobs
    }

    /** The active record does not parse; the other slot holds an older one that does. */
    ghost predicate FallsBackTo(v: View, p: Active)
    {
      && ActiveOf(v).Some? && format.parse(ActiveOf(v).value.record.payload).None?
      && p.slot == ActiveOf(v).value.slot.Other() && v.At(p.slot) == Some(p.record)
      && p.record.generation < ActiveOf(v).value.record.generation
      && format.parse(p.record.payload).Some?
    }

    /** There is something to boot from: a record that parses, or nothing at all. */
    ghost predicate Bootable(blobs: Blobs)
    {
      var v := ViewOf(blobs, ENROLLMENT_SLOTS);
      ActiveActivation(format, v).Some? || (exists p :: FallsBackTo(v, p)) || Blank(blobs)
    }

    /** And this is the record that is active afterwards: unchanged, the predecessor, or a tombstone. */
    ghost predicate BootsFrom(blobs: Blobs, w: View)
    {
      var v := ViewOf(blobs, ENROLLMENT_SLOTS);
      if ActiveActivation(format, v).Some? then w == v
      else if Blank(blobs) then
        ActiveActivation(format, w) == Some(TOMBSTONE) && ActiveOf(w).value == Active(A, Record(1, format.serialize(TOMBSTONE)))
      else
        exists p :: FallsBackTo(v, p) && ActiveOf(w) == Some(p) && w.a == v.a && w.b == v.b
    }

    /** The record boot goes by: the active one, the one before it if that does not parse, or a tombstone. */
    method LoadRecord() returns (activation: Option<Activation>)
      requires format.Valid()
      modifies store
      ensures RecordLeaves(format, ViewOf(old(store.blobs), ENROLLMENT_SLOTS), ViewOf(store.blobs, ENROLLMENT_SLOTS))
      ensures store.on ==> old(store.on)
      ensures activation.Some? ==> store.on && ActiveActivation(format, ViewOf(store.blobs, ENROLLMENT_SLOTS)) == activation
      ensures var a := ActiveActivation(format, ViewOf(old(store.blobs), ENROLLMENT_SLOTS));
              a.Some? ==> store.blobs == old(store.blobs) && (old(store.on) ==> activation == a && store.on)
      ensures old(store.on) && old(store.script) == [] ==>
                && (activation.Some? <==> Bootable(old(store.blobs)))
                && (if activation.Some? then BootsFrom(old(store.blobs), ViewOf(store.blobs, ENROLLMENT_SLOTS))
                    else store.blobs == old(store.blobs))
                && (Blank(old(store.blobs)) ==> activation == Some(TOMBSTONE))
    {
      NoFallBack(ViewOf(store.blobs, ENROLLMENT_SLOTS));
      hide Covered, FallsBackTo, Counts;
      var loaded := LoadActive(store, ENROLLMENT_SLOTS);
      if loaded.Some? {
        activation := format.parse(loaded.value.active.record.payload);
        if activation.None? {
          activation := FallBack(loaded.value.active.record.generation);
        }
        return;
      }
      if !store.on || AnyDataPresent(store.blobs, ENROLLMENT_SLOTS) {
        return None;
      }
      activation := CommitTombstone();
    }

    /** The older record in the other slot, if it parses, made active. */
    method FallBack(generation: u64) returns (activation: Option<Activation>)
      requires store.on
      requires var a := ActiveOf(ViewOf(store.blobs, ENROLLMENT_SLOTS));
               a.Some? && a.value.record.generation == generation && format.parse(a.value.record.payload).None?
      modifies store
      ensures RollbackLeaves(ViewOf(old(store.blobs), ENROLLMENT_SLOTS), ViewOf(store.blobs, ENROLLMENT_SLOTS), generation)
      ensures activation.Some? ==>
                && store.on && ActiveActivation(format, ViewOf(store.blobs, ENROLLMENT_SLOTS)) == activation
                && exists p :: FallsBackTo(ViewOf(old(store.blobs), ENROLLMENT_SLOTS), p)
                               && ActiveOf(ViewOf(store.blobs, ENROLLMENT_SLOTS)) == Some(p)
      ensures old(store.script) == [] ==>
                && (activation.Some? <==> exists p :: FallsBackTo(ViewOf(old(store.blobs), ENROLLMENT_SLOTS), p))
                && (activation.None? ==> store.blobs == old(store.blobs))
    {
      ghost var v := ViewOf(store.blobs, ENROLLMENT_SLOTS);
      FallBackIsPrevious(v);
      hide FallsBackTo;
      var previous := LoadPrevious(store, ENROLLMENT_SLOTS, generation);
      if previous.None? || format.parse(previous.value.record.payload).None? {
        return None;
      }
      var rolledBack := RollbackToPrevious(store, ENROLLMENT_SLOTS, generation);
      activation := if rolledBack == previous then format.parse(previous.value.record.payload) else None;
    }

    /** commitEnrollmentTombstone, where there is no record. */
    method CommitTombstone() returns (activation: Option<Activation>)
      requires format.Valid() && store.on && Blank(store.blobs)
      modifies store
      ensures CommitLeaves(ViewOf(old(store.blobs), ENROLLMENT_SLOTS), ViewOf(store.blobs, ENROLLMENT_SLOTS),
                           format.serialize(TOMBSTONE))
      ensures activation.Some? ==>
                && store.on && activation == Some(TOMBSTONE)
                && var w := ViewOf(store.blobs, ENROLLMENT_SLOTS);
                   && ActiveActivation(format, w) == Some(TOMBSTONE)
                   && ActiveOf(w) == Some(Active(A, Record(1, format.serialize(TOMBSTONE))))
      ensures old(store.script) == [] ==> activation.Some?
    {
      var committed := Commit(store, ENROLLMENT_SLOTS, format.serialize(TOMBSTONE));
      activation := if committed.Some? then Some(TOMBSTONE) else None;
    }

    lemma NoFallBack(v: View)
      ensures ActiveOf(v).None? ==> forall p :: !FallsBackTo(v, p)
    {
    }

    lemma FallBackIsPrevious(v: View)
      requires ActiveOf(v).Some? && format.parse(ActiveOf(v).value.record.payload).None?
      ensures var previous := PreviousOf(v, ActiveOf(v).value.record.generation);
              forall p :: FallsBackTo(v, p) <==> previous == Some(p) && format.parse(p.record.payload).Some?
    {
    }

    lemma TombstoneIsCovered(c: Cursors)
      ensures Covered(c, TOMBSTONE) && PendingOf(TOMBSTONE).None?
    {
    }

    /** The boot check on the durable cursors. */
    method MeetsMarks(a: Activation) returns (ok: bool)
      ensures ok <==> Covered(durable, a)
      ensures a.policyBound && !a.pending ==>
                (ok <==> && Get(durable, DataGen) >= a.target && Get(durable, ResetFloor) >= a.boundary
                         && forall k :: k in {ServerAck, ServerMax, RemoveSeq} ==> Get(durable, k) >= a.floor)
    {
      if a.policyBound && !a.pending {
        if || Get(durable, DataGen) < a.target || Get(durable, ResetFloor) < a.boundary
           || Get(durable, ServerAck) < a.floor || Get(durable, ServerMax) < a.floor
           || Get(durable, RemoveSeq) < a.floor {
          return false;
        }
      }
      ok := true;
    }

    /** loadOrMigrateEnrollment, then the cursor loads of ConfigService::begin. */
    method BootLoad() returns (ok: bool)
      requires format.Valid()
      modifies this, store
      ensures BootLeaves(format, old(StateNow()), StateNow())
      // it never refuses a safe state whose active record parses
      ensures (&& old(store.on) && Safe(format, old(StateNow()))
               && ActiveActivation(format, old(StateNow()).view).Some?) ==> ok
      ensures ok ==>
                && store.on && memory.Some?
                && var a := ActiveActivation(format, StateNow().view);
                && a.Some? && Covered(durable, a.value)
                && memory == Some(Memory(Loaded(durable), PendingOf(a.value)))
      // without faults it comes up exactly on a record it can go by, and with that one active
      ensures old(store.on) && old(store.script) == [] ==>
                var w := ViewOf(store.blobs, ENROLLMENT_SLOTS);
                && (Bootable(old(store.blobs)) ==>
                      BootsFrom(old(store.blobs), w) && ActiveActivation(format, w).Some?)
                && (!Bootable(old(store.blobs)) ==> store.blobs == old(store.blobs))
                && (ok <==> Bootable(old(store.blobs)) && Covered(durable, ActiveActivation(format, w).value))
                && (Blank(old(store.blobs)) ==> ok && memory.value.pending.None?)
    {
      TombstoneIsCovered(durable);
      hide Covered, CommitLeaves, RollbackLeaves, Bootable, BootsFrom, Blank;
      memory := None;
      ghost var v := ViewOf(store.blobs, ENROLLMENT_SLOTS);
      var activation := LoadRecord();
      if activation.None? {
        return false;
      }
      var covered := MeetsMarks(activation.value);
      if !covered {
        if ActiveActivation(format, v).Some? {
          assert activation == format.ActivationAt(v.At(ActiveOf(v).value.slot));
        }
        return false;
      }
      var maximum := if ServerMax in durable then durable[ServerMax] else Get(durable, ServerAck);
      memory := Some(Memory(durable[ServerMax := maximum], PendingOf(activation.value)));
      ok := true;
    }
  }
}
