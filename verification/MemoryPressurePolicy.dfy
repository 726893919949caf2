/** The internal-heap pressure state machine of include/core/MemoryPressurePolicy.h. */
module MemoryPressurePolicies {
  import opened Bytes

  datatype Context =
    Idle | TlsPreparing | TlsActive | OtaActive | HeavyLocalUi | DiagnosticsActive | StorageMaintenance

  datatype Pressure = Normal | PressureWarning | Fragmented | LowTotalMemory | Recovering

  const NORMAL_FREE: u32 := 68 * 1024
  const NORMAL_LARGEST: u32 := 32 * 1024
  const FRAGMENTATION_FREE: u32 := 64 * 1024
  const LOW_TOTAL: u32 := 56 * 1024
  const EMERGENCY_FREE: u32 := 32 * 1024
  const POST_OPERATION_GRACE_MS: u64 := 3000
  const SAMPLES_REQUIRED: nat := 3

  /** The arguments of one update. */
  datatype Sample = Sample(free: u32, largest: u32, now: u64, context: Context, integrityOk: bool,
                           lastCompleted: u64, allocationFailed: bool)

  predicate ExpectedHighMemory(c: Context) { c.TlsPreparing? || c.TlsActive? || c.OtaActive? }

  /** What a sample counts as; the first that applies. */
  datatype Class = HardFault | ExpectedOperation | Grace | Emergency | Low | Fragmentation | Safe | Between

  function Classify(s: Sample): Class
  {
    if !s.integrityOk || s.allocationFailed then HardFault
    else if ExpectedHighMemory(s.context) then ExpectedOperation
    else if s.lastCompleted != 0 && s.now >= s.lastCompleted && s.now - s.lastCompleted < POST_OPERATION_GRACE_MS then Grace
    else if s.free < EMERGENCY_FREE then Emergency
    else if s.free < LOW_TOTAL then Low
    else if s.free >= FRAGMENTATION_FREE && s.largest < NORMAL_LARGEST then Fragmentation
    else if s.free >= NORMAL_FREE && s.largest >= NORMAL_LARGEST then Safe
    else Between
  }

  /** Accounting of the time spent outside Normal; `started` is zero when no episode is open. */
  datatype Episodes = Episodes(started: u64, cumulative: nat, longest: u64)

  datatype Fragments = Fragments(started: u64, entries: nat, recoveries: nat, longest: u64, freeAtEntry: u32)

  datatype Minima = Minima(free: u32, largest: u32, tls: u32, ota: u32)

  datatype Policy = Policy(state: Pressure, since: u64, transitions: nat, entries: nat, recoveries: nat,
                           lowSamples: nat, safeSamples: nat, pressure: Episodes, fragments: Fragments,
                           minima: Minima, tlsReady: bool, integrityOk: bool, context: Context)

  const INITIAL := Policy(Normal, 0, 0, 0, 0, 0, 0, Episodes(0, 0, 0), Fragments(0, 0, 0, 0, 0),
                          Minima(0, 0, 0, 0), false, true, Idle)

  // ----- one update as a function ------------------------------------------------------------

  function Increment(value: nat): nat { if value >= 255 then value else value + 1 }

  function Minimum(minimum: u32, value: u32): u32 { if minimum == 0 || value < minimum then value else minimum }

  function OpenedAt(now: u64): u64 { if now == 0 then 1 else now }

  function Elapsed(started: u64, now: u64): u64 { if started != 0 && now >= started then now - started else 0 }

  function Max(a: u64, b: u64): u64 { if a >= b then a else b }

  function FragmentStep(f: Fragments, fragmented: bool, free: u32, now: u64): Fragments
  {
    if fragmented && f.started == 0 then
      f.(started := OpenedAt(now), entries := f.entries + 1, freeAtEntry := free)
    else if !fragmented && f.started != 0 then
      f.(started := 0, recoveries := f.recoveries + 1, longest := Max(f.longest, Elapsed(f.started, now)))
    else f
  }

  function EpisodeStep(e: Episodes, previous: Pressure, next: Pressure, now: u64): Episodes
  {
    if previous.Normal? && !next.Normal? then e.(started := OpenedAt(now))
    else if !previous.Normal? && next.Normal? then
      Episodes(0, e.cumulative + Elapsed(e.started, now), Max(e.longest, Elapsed(e.started, now)))
    else e
  }

  function Transition(p: Policy, next: Pressure, now: u64): Policy
  {
    if next == p.state then p
    else
      p.(state := next, since := now, transitions := p.transitions + 1,
         pressure := EpisodeStep(p.pressure, p.state, next, now),
         entries := p.entries + (if next.LowTotalMemory? then 1 else 0),
         recoveries := p.recoveries + (if next.Normal? then 1 else 0),
         lowSamples := if next.LowTotalMemory? then 0 else p.lowSamples,
         safeSamples := if next.Recovering? || next.Normal? then 0 else p.safeSamples)
  }

  function Observe(p: Policy, s: Sample): Policy
  {
    p.(context := s.context, integrityOk := s.integrityOk,
       tlsReady := s.integrityOk && s.free >= FRAGMENTATION_FREE && s.largest >= NORMAL_LARGEST,
       minima := p.minima.(free := Minimum(p.minima.free, s.free), largest := Minimum(p.minima.largest, s.largest)))
  }

  function NoteDip(m: Minima, s: Sample): Minima
  {
    if s.context.OtaActive? then m.(ota := Minimum(m.ota, s.free)) else m.(tls := Minimum(m.tls, s.free))
  }

  /** Where a classified sample sends the state, given the run lengths including it. */
  function Destination(state: Pressure, c: Class, lowSamples: nat, safeSamples: nat): Pressure
  {
    match c
    case HardFault => LowTotalMemory
    case Emergency => LowTotalMemory
    case ExpectedOperation => state
    case Grace => state
    case Low => if state.LowTotalMemory? || lowSamples >= SAMPLES_REQUIRED then LowTotalMemory else PressureWarning
    case Fragmentation => Fragmented
    case Safe =>
      if state.Normal? || safeSamples < SAMPLES_REQUIRED then state
      else if state.PressureWarning? || state.Recovering? then Normal
      else Recovering
    case Between => if state.LowTotalMemory? then Recovering else PressureWarning
  }

  function CountedLow(p: Policy, c: Class): nat
  {
    if c.HardFault? || c.Emergency? then p.lowSamples
    else if c.Low? then Increment(p.lowSamples) else 0
  }

  function CountedSafe(p: Policy, c: Class): nat
  {
    if c.HardFault? || c.Emergency? then p.safeSamples
    else if c.Safe? then Increment(p.safeSamples) else 0
  }

  /** A fault or an emergency: close the fragmentation episode, leave the counters, go to LowTotalMemory. */
  function Fail(p: Policy, s: Sample): Policy
  {
    Transition(p.(fragments := FragmentStep(p.fragments, false, s.free, s.now)), LowTotalMemory, s.now)
  }

  /** An ordinary sample. */
  function Settle(p: Policy, s: Sample): Policy
  {
    var c := Classify(s);
    var q := p.(lowSamples := CountedLow(p, c), safeSamples := CountedSafe(p, c),
                fragments := FragmentStep(p.fragments, c.Fragmentation?, s.free, s.now));
    Transition(q, Destination(p.state, c, q.lowSamples, q.safeSamples), s.now)
  }

  function Update(p: Policy, s: Sample): Policy
  {
    var q := Observe(p, s);
    match Classify(s)
    case HardFault => Fail(q, s)
    case Emergency => Fail(q, s)
    case ExpectedOperation => q.(minima := NoteDip(q.minima, s), lowSamples := 0, safeSamples := 0)
    case Grace => q.(lowSamples := 0, safeSamples := 0)
    case _ => Settle(q, s)
  }

  // ----- runs ----------------------------------------------------------------------------------

  /** `ps[i]` is the policy before sample `i`. */
  ghost predicate Run(samples: seq<Sample>, ps: seq<Policy>)
  {
    && |ps| == |samples| + 1
    && ps[0] == INITIAL
    && forall i :: 0 <= i < |samples| ==> ps[i + 1] == Update(ps[i], samples[i])
  }

  /** The last `k` of the first `n` samples all count as `c`. */
  ghost predicate Trailing(samples: seq<Sample>, n: nat, k: nat, c: Class)
  {
    k <= n <= |samples| && forall i :: n - k <= i < n ==> Classify(samples[i]) == c
  }

  /** Outside LowTotalMemory the two counters are honest about consecutive samples. */
  ghost predicate CountersHonest(samples: seq<Sample>, p: Policy, n: nat)
  {
    !p.state.LowTotalMemory? ==>
      Trailing(samples, n, p.lowSamples, Low) && Trailing(samples, n, p.safeSamples, Safe)
  }

  /** What one update does to the state and the two counters, and nothing else. */
  lemma CountersAfter(p: Policy, s: Sample)
    ensures var c, q := Classify(s), Update(p, s);
            && q.state == Destination(p.state, c, CountedLow(p, c), CountedSafe(p, c))
            && q.lowSamples == (if q.state.LowTotalMemory? && !p.state.LowTotalMemory? then 0 else CountedLow(p, c))
            && q.safeSamples == (if q.state != p.state && (q.state.Recovering? || q.state.Normal?) then 0
                                 else CountedSafe(p, c))
  {
  }

  lemma {:induction false} CountersStayHonest(samples: seq<Sample>, ps: seq<Policy>, n: nat)
    requires Run(samples, ps) && n < |ps|
    ensures CountersHonest(samples, ps[n], n)
  {
    if n > 0 {
      CountersStayHonest(samples, ps, n - 1);
      CountersAfter(ps[n - 1], samples[n - 1]);
    }
  }

  /** Every entry into Normal ends a run of three consecutive samples that count as safe. */
  lemma NormalNeedsThreeSafe(samples: seq<Sample>, ps: seq<Policy>, n: nat)
    requires Run(samples, ps) && n < |samples|
    requires !ps[n].state.Normal? && ps[n + 1].state.Normal?
    ensures Trailing(samples, n + 1, 3, Safe)
    ensures ps[n].state.PressureWarning? || ps[n].state.Recovering?
  {
    CountersStayHonest(samples, ps, n);
    CountersAfter(ps[n], samples[n]);
  }

  /**
   * Every entry into LowTotalMemory is caused by a hard fault, by a sample below the emergency floor
   * outside expected operations and grace, or by three consecutive low samples.
   */
  lemma LowTotalMemoryNeedsCause(samples: seq<Sample>, ps: seq<Policy>, n: nat)
    requires Run(samples, ps) && n < |samples|
    requires !ps[n].state.LowTotalMemory? && ps[n + 1].state.LowTotalMemory?
    ensures || Classify(samples[n]).HardFault?
            || Classify(samples[n]).Emergency?
            || Trailing(samples, n + 1, 3, Low)
  {
    CountersStayHonest(samples, ps, n);
    CountersAfter(ps[n], samples[n]);
  }

  /** LowTotalMemory never goes straight to Normal, whatever the counters hold. */
  lemma LowTotalMemoryLeavesThroughOthers(p: Policy, s: Sample)
    requires p.state.LowTotalMemory?
    ensures !Update(p, s).state.Normal?
  {
  }

  /**
   * Entry into Recovering is different: a sample between the floors that ends LowTotalMemory is enough, and hard
   * faults and emergencies leave the safe counter alone. Over all entries, the last three samples are safe if and only
   * if the sample that enters is, and neither of the two before it was such a fault.
   */
  lemma RecoveringNeedsThreeSafeUnlessFaulted(samples: seq<Sample>, ps: seq<Policy>, n: nat)
    requires Run(samples, ps) && n < |samples|
    requires !ps[n].state.Recovering? && ps[n + 1].state.Recovering?
    ensures if Classify(samples[n]).Safe? then n >= 2 else ps[n].state.LowTotalMemory? && Classify(samples[n]).Between?
    ensures Trailing(samples, n + 1, 3, Safe) <==>
              && Classify(samples[n]).Safe?
              && forall i :: 0 <= i && n - 2 <= i < n ==>
                   !Classify(samples[i]).HardFault? && !Classify(samples[i]).Emergency?
  {
    CountersAfter(ps[n], samples[n]);
    if Classify(samples[n]).Safe? {
      SafeEntry(samples, ps, n);
    }
  }

  lemma SafeEntry(samples: seq<Sample>, ps: seq<Policy>, n: nat)
    requires Run(samples, ps) && n < |samples|
    requires !ps[n].state.Recovering? && ps[n + 1].state.Recovering? && Classify(samples[n]).Safe?
    ensures n >= 2
    ensures Trailing(samples, n + 1, 3, Safe) <==>
              forall i :: n - 2 <= i < n ==> !Classify(samples[i]).HardFault? && !Classify(samples[i]).Emergency?
  {
    CountersAfter(ps[n], samples[n]);
    SafeCountIsBounded(samples, ps, n);
    CountersAfter(ps[n - 1], samples[n - 1]);
    CountersAfter(ps[n - 2], samples[n - 2]);
    if forall i :: n - 2 <= i < n ==> !Classify(samples[i]).HardFault? && !Classify(samples[i]).Emergency? {
      assert Classify(samples[n - 1]).Safe?;
      assert Classify(samples[n - 2]).Safe?;
    }
  }

  /** No more safe samples are counted than there have been samples. */
  lemma {:induction false} SafeCountIsBounded(samples: seq<Sample>, ps: seq<Policy>, n: nat)
    requires Run(samples, ps) && n < |ps|
    ensures ps[n].safeSamples <= n
  {
    if n > 0 {
      SafeCountIsBounded(samples, ps, n - 1);
      CountersAfter(ps[n - 1], samples[n - 1]);
    }
  }

  /** Two safe samples, a failed allocation and one safe sample are enough to enter Recovering. */
  lemma OneSafeSampleCanEnterRecovering() returns (samples: seq<Sample>, ps: seq<Policy>)
    ensures Run(samples, ps) && |samples| == 4
    ensures ps[3].state.LowTotalMemory? && ps[4].state.Recovering?
    ensures Classify(samples[2]).HardFault? && !Trailing(samples, 4, 3, Safe)
  {
    var safe := Sample(NORMAL_FREE, NORMAL_LARGEST, 1, Idle, true, 0, false);
    var fault := safe.(allocationFailed := true);
    ps := FaultThenSafe(INITIAL, safe, fault);
    samples := [safe, safe, fault, safe];
  }

  /** A failed allocation and one sample that is neither low nor safe enter Recovering with no safe sample at all. */
  lemma NoSafeSampleCanEnterRecovering() returns (samples: seq<Sample>, ps: seq<Policy>)
    ensures Run(samples, ps) && |samples| == 2
    ensures ps[1].state.LowTotalMemory? && ps[2].state.Recovering?
    ensures forall i :: 0 <= i < 2 ==> !Classify(samples[i]).Safe?
  {
    var between := Sample(NORMAL_FREE - 1, NORMAL_LARGEST, 1, Idle, true, 0, false);
    var fault := between.(allocationFailed := true);
    ps := FaultThenBetween(INITIAL, between, fault);
    samples := [fault, between];
    hide Update;
  }

  lemma FaultThenBetween(p: Policy, between: Sample, fault: Sample) returns (ps: seq<Policy>)
    requires p.state.Normal? && Classify(between).Between? && Classify(fault).HardFault?
    ensures |ps| == 3 && ps[0] == p && ps[1] == Update(ps[0], fault) && ps[2] == Update(ps[1], between)
    ensures ps[1].state.LowTotalMemory? && ps[2].state.Recovering?
  {
    hide Update;
    var p1 := Update(p, fault);
    CountersAfter(p, fault);
    var p2 := Update(p1, between);
    CountersAfter(p1, between);
    ps := [p, p1, p2];
  }

  lemma FaultThenSafe(p: Policy, safe: Sample, fault: Sample) returns (ps: seq<Policy>)
    requires p.state.Normal? && p.safeSamples == 0
    requires Classify(safe).Safe? && Classify(fault).HardFault?
    ensures |ps| == 5 && ps[0] == p
    ensures ps[1] == Update(ps[0], safe) && ps[2] == Update(ps[1], safe)
    ensures ps[3] == Update(ps[2], fault) && ps[4] == Update(ps[3], safe)
    ensures ps[3].state.LowTotalMemory? && ps[4].state.Recovering?
  {
    hide Update;
    var p1 := Update(p, safe);
    CountersAfter(p, safe);
    var p2 := Update(p1, safe);
    CountersAfter(p1, safe);
    var p3 := Update(p2, fault);
    CountersAfter(p2, fault);
    var p4 := Update(p3, safe);
    CountersAfter(p3, safe);
    ps := [p, p1, p2, p3, p4];
  }

  // ----- what the figures of a sample lead to -------------------------------------------------

  /** The heap is damaged, or an allocation that must not fail has failed. */
  predicate Faulty(s: Sample) { !s.integrityOk || s.allocationFailed }

  /** A dip that is expected: during TLS or OTA work, or within three seconds of its end. */
  predicate Exempt(s: Sample)
  {
    && !Faulty(s)
    && (|| s.context in {TlsPreparing, TlsActive, OtaActive}
        || (s.lastCompleted != 0 && 0 <= s.now - s.lastCompleted < 3000))
  }

  predicate Roomy(s: Sample) { s.free >= 69632 && s.largest >= 32768 }

  predicate Scarce(s: Sample) { s.free < 57344 }

  predicate Scattered(s: Sample) { s.free >= 65536 && s.largest < 32768 }

  /**
   * One update, from any state and whatever was counted before: faults and figures below 32 KiB outside the exemptions
   * are LowTotalMemory at once, scattered ones are Fragmented at once, exempt ones change nothing, and unless the sample
   * is roomy or exempt the state is never Normal.
   */
  lemma FiguresDecide(p: Policy, s: Sample)
    ensures var q := Update(p, s);
            && (Faulty(s) || (!Exempt(s) && s.free < 32768) ==> q.state.LowTotalMemory?)
            && (!Faulty(s) && !Exempt(s) && Scattered(s) ==> q.state.Fragmented?)
            && (Exempt(s) ==> q.state == p.state && q.lowSamples == q.safeSamples == 0)
            && (!Exempt(s) && !Roomy(s) ==> !q.state.Normal?)
            && (!Faulty(s) && !Exempt(s) && !Scarce(s) && !Scattered(s) && !Roomy(s) ==>
                  q.state == if p.state.LowTotalMemory? then Recovering else PressureWarning)
            && (!Faulty(s) && !Exempt(s) && Roomy(s) ==> !q.state.LowTotalMemory? || p.state.LowTotalMemory?)
            && (!Faulty(s) && !Exempt(s) && Scarce(s) ==> q.state.LowTotalMemory? || q.state.PressureWarning?)
            && (!Faulty(s) && !Exempt(s) && Scarce(s) && s.free >= 32768 ==>
                  (q.state.LowTotalMemory? <==> p.state.LowTotalMemory? || p.lowSamples >= 2))
            && (!Faulty(s) && !Exempt(s) && Roomy(s) && !p.state.Normal? ==>
                  (q.state.Normal? <==> (p.state.PressureWarning? || p.state.Recovering?) && p.safeSamples >= 2))
            && (p.lowSamples < 256 && p.safeSamples < 256 ==> q.lowSamples < 256 && q.safeSamples < 256)
            && (q.tlsReady <==> s.integrityOk && s.free >= 65536 && s.largest >= 32768)
  {
  }

  /** Three scarce samples in a row that are not exempt end in LowTotalMemory, from any state. */
  lemma ThreeScarceAreLow(p: Policy, a: Sample, b: Sample, c: Sample)
    requires Scarce(a) && Scarce(b) && Scarce(c) && !Exempt(a) && !Exempt(b) && !Exempt(c)
    ensures Update(Update(Update(p, a), b), c).state.LowTotalMemory?
  {
    ScarceCounts(p, a);
    ScarceCounts(Update(p, a), b);
    ScarceCounts(Update(Update(p, a), b), c);
    hide Update;
  }

  lemma ScarceCounts(p: Policy, s: Sample)
    requires Scarce(s) && !Exempt(s)
    ensures var q := Update(p, s);
            || q.state.LowTotalMemory?
            || (!p.state.LowTotalMemory? && q.lowSamples > p.lowSamples && q.lowSamples < 3)
  {
    CountersAfter(p, s);
    hide Update;
  }

  /** Six roomy samples in a row that are neither faulty nor exempt end in Normal, from any state. */
  lemma SixRoomyAreNormal(ps: seq<Policy>, samples: seq<Sample>)
    requires |samples| == 6 && |ps| == 7
    requires forall i :: 0 <= i < 6 ==> ps[i + 1] == Update(ps[i], samples[i])
    requires forall i :: 0 <= i < 6 ==> Roomy(samples[i]) && !Faulty(samples[i]) && !Exempt(samples[i])
    ensures ps[6].state.Normal?
  {
    hide Update, Roomy, Exempt, Faulty;
    for i := 0 to 6
      invariant ps[i].state.Normal? || RoomyToGo(ps[i]) <= 6 - i
    {
      assert ps[i + 1] == Update(ps[i], samples[i]);
      RoomyCounts(ps[i], samples[i]);
    }
  }

  /** How many more such samples it takes. */
  function RoomyToGo(p: Policy): nat
  {
    var left := if p.safeSamples >= 3 then 1 else 3 - p.safeSamples;
    if p.state.Normal? then 0 else if p.state.PressureWarning? || p.state.Recovering? then left else left + 3
  }

  lemma RoomyCounts(p: Policy, s: Sample)
    requires Roomy(s) && !Faulty(s) && !Exempt(s)
    ensures var q := Update(p, s);
            if p.state.Normal? then q.state.Normal? else RoomyToGo(q) < RoomyToGo(p) || q.state.Normal?
    ensures RoomyToGo(p) <= 6
  {
    CountersAfter(p, s);
    hide Update;
  }

  // ----- time accounting -----------------------------------------------------------------------

  /** Clocks are positive and never run backwards. */
  ghost predicate Monotone(samples: seq<Sample>)
  {
    && (forall i :: 0 <= i < |samples| ==> samples[i].now > 0)
    && (forall i, j :: 0 <= i <= j < |samples| ==> samples[i].now <= samples[j].now)
  }

  /** Time outside Normal between the updates up to sample `n - 1`. */
  ghost function TimeOutside(samples: seq<Sample>, ps: seq<Policy>, n: nat): int
    requires |ps| == |samples| + 1 && n <= |samples|
  {
    if n < 2 then 0
    else
      TimeOutside(samples, ps, n - 1)
      + if ps[n - 1].state.Normal? then 0 else samples[n - 1].now - samples[n - 2].now
  }

  /** Samples `i` and `j` bound an episode: `i` left Normal, `j` returned to it, nothing in between did. */
  ghost predicate Episode(ps: seq<Policy>, i: nat, j: nat)
  {
    && i < j && j + 1 < |ps|
    && ps[i].state.Normal? && ps[j + 1].state.Normal?
    && forall k :: i < k <= j ==> !ps[k].state.Normal?
  }

  /** The episode open after `n` samples, if any, was opened by sample `i`. */
  ghost predicate OpenEpisode(samples: seq<Sample>, ps: seq<Policy>, n: nat, i: nat)
    requires |ps| == |samples| + 1 && n <= |samples|
  {
    && i < n && ps[i].state.Normal? && ps[n].pressure.started == samples[i].now
    && forall k :: i < k <= n ==> !ps[k].state.Normal?
  }

  ghost predicate Accounted(samples: seq<Sample>, ps: seq<Policy>, n: nat)
    requires |ps| == |samples| + 1 && n <= |samples|
  {
    var e := ps[n].pressure;
    && (e.started != 0 <==> !ps[n].state.Normal?)
    && (e.started != 0 ==> n > 0 && e.started <= samples[n - 1].now)
    && e.cumulative + (if e.started != 0 then samples[n - 1].now - e.started else 0) == TimeOutside(samples, ps, n)
    && e.longest <= e.cumulative
    && (e.started != 0 ==> exists i :: OpenEpisode(samples, ps, n, i))
  }

  lemma EpisodesAfter(p: Policy, s: Sample)
    ensures Update(p, s).pressure == EpisodeStep(p.pressure, p.state, Update(p, s).state, s.now)
  {
  }

  /** An episode is open exactly outside Normal, and the books agree with the clock at every sample. */
  lemma {:induction false} TimeIsAccounted(samples: seq<Sample>, ps: seq<Policy>, n: nat)
    requires Run(samples, ps) && Monotone(samples) && n <= |samples|
    ensures Accounted(samples, ps, n)
  {
    if n > 0 {
      TimeIsAccounted(samples, ps, n - 1);
      EpisodesAfter(ps[n - 1], samples[n - 1]);
      if ps[n - 1].state.Normal? && !ps[n].state.Normal? {
        assert OpenEpisode(samples, ps, n, n - 1);
      } else if !ps[n].state.Normal? {
        var i :| OpenEpisode(samples, ps, n - 1, i);
        assert OpenEpisode(samples, ps, n, i);
      }
    }
  }

  /** An episode closed within the first `n` samples. */
  ghost predicate ClosedEpisode(samples: seq<Sample>, ps: seq<Policy>, n: nat, i: nat, j: nat)
    requires |ps| == |samples| + 1 && n <= |samples|
  {
    Episode(ps, i, j) && j < n
  }

  function Duration(samples: seq<Sample>, i: nat, j: nat): int
    requires i < |samples| && j < |samples|
  {
    samples[j].now - samples[i].now
  }

  /** The longest closed episode is what is recorded: an upper bound, and attained. */
  lemma {:induction false} LongestIsMaximum(samples: seq<Sample>, ps: seq<Policy>, n: nat)
    requires Run(samples, ps) && Monotone(samples) && n <= |samples|
    ensures forall i: nat, j: nat :: ClosedEpisode(samples, ps, n, i, j) ==>
              Duration(samples, i, j) <= ps[n].pressure.longest
    ensures ps[n].pressure.longest > 0 ==>
              exists i: nat, j: nat :: ClosedEpisode(samples, ps, n, i, j)
                                       && Duration(samples, i, j) == ps[n].pressure.longest
  {
    if n > 0 {
      var m := n - 1;
      LongestIsMaximum(samples, ps, m);
      TimeIsAccounted(samples, ps, m);
      EpisodesAfter(ps[m], samples[m]);
      var longest := ps[m].pressure.longest;
      if longest > 0 {
        var i: nat, j: nat :| ClosedEpisode(samples, ps, m, i, j) && Duration(samples, i, j) == longest;
        assert ClosedEpisode(samples, ps, n, i, j);
      }
      if !ps[m].state.Normal? && ps[n].state.Normal? {
        var o :| OpenEpisode(samples, ps, m, o);
        assert ClosedEpisode(samples, ps, n, o, m);
        forall i: nat, j: nat | ClosedEpisode(samples, ps, n, i, j)
          ensures j == m ==> i == o
          ensures j < m ==> ClosedEpisode(samples, ps, m, i, j)
        {
        }
      } else {
        forall i: nat, j: nat | ClosedEpisode(samples, ps, n, i, j)
          ensures ClosedEpisode(samples, ps, m, i, j)
        {
        }
      }
    }
  }

  /** Fragmentation entries exceed recoveries by one while an episode is open, which only happens in Fragmented. */
  ghost predicate FragmentsBalanced(p: Policy)
  {
    && p.fragments.entries == p.fragments.recoveries + (if p.fragments.started != 0 then 1 else 0)
    && (p.fragments.started != 0 ==> p.state.Fragmented?)
  }

  lemma FragmentsAfter(p: Policy, s: Sample)
    requires FragmentsBalanced(p)
    ensures FragmentsBalanced(Update(p, s))
  {
  }

  lemma {:induction false} FragmentsStayBalanced(samples: seq<Sample>, ps: seq<Policy>, n: nat)
    requires Run(samples, ps) && n < |ps|
    ensures FragmentsBalanced(ps[n])
  {
    if n > 0 {
      FragmentsStayBalanced(samples, ps, n - 1);
      FragmentsAfter(ps[n - 1], samples[n - 1]);
    }
  }

  /** A fragmentation episode is open exactly while the figures are scattered; exempt samples leave it as it is. */
  lemma FragmentFollowsFigures(p: Policy, s: Sample)
    ensures var f, g := p.fragments, Update(p, s).fragments;
            if Exempt(s) then g == f
            else
              && (g.started != 0 <==> !Faulty(s) && Scattered(s))
              && (f.started == 0 && g.started != 0 ==> g.started == OpenedAt(s.now) && g.freeAtEntry == s.free)
              && (f.started != 0 && g.started != 0 ==> g == f)
              && (f.started != 0 && g.started == 0 ==> g.longest == Max(f.longest, Elapsed(f.started, s.now)))
              && (f.started == 0 || g.started != 0 ==> g.longest == f.longest)
              && (f.started != 0 || g.started == 0 ==> g.freeAtEntry == f.freeAtEntry)
  {
  }

  /** The fragmentation episode open after `n` samples was opened by sample `i`. */
  ghost predicate OpenFragment(samples: seq<Sample>, ps: seq<Policy>, n: nat, i: nat)
    requires |ps| == |samples| + 1 && n <= |samples|
  {
    && i < n && ps[i].fragments.started == 0
    && forall k :: i < k <= n ==> ps[k].fragments.started == samples[i].now && ps[k].fragments.freeAtEntry == samples[i].free
  }

  /** One that sample `i` opened and sample `j` closed. */
  ghost predicate ClosedFragment(samples: seq<Sample>, ps: seq<Policy>, n: nat, i: nat, j: nat)
    requires |ps| == |samples| + 1 && n <= |samples|
  {
    && i < j < n && ps[i].fragments.started == 0 && ps[j + 1].fragments.started == 0
    && forall k :: i < k <= j ==> ps[k].fragments.started != 0
  }

  lemma {:induction false} FragmentIsOpenSince(samples: seq<Sample>, ps: seq<Policy>, n: nat)
    requires Run(samples, ps) && Monotone(samples) && n <= |samples| && ps[n].fragments.started != 0
    ensures exists i: nat :: OpenFragment(samples, ps, n, i)
  {
    if n > 0 {
      FragmentFollowsFigures(ps[n - 1], samples[n - 1]);
      if ps[n - 1].fragments.started == 0 {
        assert OpenFragment(samples, ps, n, n - 1);
      } else {
        FragmentIsOpenSince(samples, ps, n - 1);
        var i: nat :| OpenFragment(samples, ps, n - 1, i);
        assert OpenFragment(samples, ps, n, i);
      }
    }
  }

  /** The longest closed fragmentation episode is what is recorded: an upper bound, and attained. */
  lemma {:induction false} LongestFragmentIsMaximum(samples: seq<Sample>, ps: seq<Policy>, n: nat)
    requires Run(samples, ps) && Monotone(samples) && n <= |samples|
    ensures forall i: nat, j: nat :: ClosedFragment(samples, ps, n, i, j) ==>
              Duration(samples, i, j) <= ps[n].fragments.longest
    ensures ps[n].fragments.longest > 0 ==>
              exists i: nat, j: nat :: ClosedFragment(samples, ps, n, i, j)
                                       && Duration(samples, i, j) == ps[n].fragments.longest
  {
    hide Update;
    if n > 0 {
      var m := n - 1;
      LongestFragmentIsMaximum(samples, ps, m);
      FragmentFollowsFigures(ps[m], samples[m]);
      var longest := ps[m].fragments.longest;
      if longest > 0 {
        var i: nat, j: nat :| ClosedFragment(samples, ps, m, i, j) && Duration(samples, i, j) == longest;
        assert ClosedFragment(samples, ps, n, i, j);
      }
      if ps[m].fragments.started != 0 && ps[n].fragments.started == 0 {
        FragmentIsOpenSince(samples, ps, m);
        var o: nat :| OpenFragment(samples, ps, m, o);
        assert ClosedFragment(samples, ps, n, o, m);
        forall i: nat, j: nat | ClosedFragment(samples, ps, n, i, j)
          ensures j == m ==> i == o
          ensures j < m ==> ClosedFragment(samples, ps, m, i, j)
        {
        }
      } else {
        forall i: nat, j: nat | ClosedFragment(samples, ps, n, i, j)
          ensures ClosedFragment(samples, ps, m, i, j)
        {
        }
      }
    }
  }

  // ----- counters and minima ---------------------------------------------------------------------

  /** How often the first `n` samples changed the state, and entered this one. */
  function Changes(ps: seq<Policy>, n: nat): nat
    requires n < |ps|
  {
    if n == 0 then 0 else Changes(ps, n - 1) + (if ps[n].state != ps[n - 1].state then 1 else 0)
  }

  function Entered(ps: seq<Policy>, n: nat, state: Pressure): nat
    requires n < |ps|
  {
    if n == 0 then 0
    else Entered(ps, n - 1, state) + (if ps[n].state == state && ps[n - 1].state != state then 1 else 0)
  }

  /** The transition counters are those numbers, and `since` is when the last change came. */
  lemma {:induction false} TransitionsAreCounted(samples: seq<Sample>, ps: seq<Policy>, n: nat)
    requires Run(samples, ps) && n < |ps|
    ensures ps[n].transitions == Changes(ps, n)
    ensures ps[n].entries == Entered(ps, n, LowTotalMemory) && ps[n].recoveries == Entered(ps, n, Normal)
    ensures n > 0 ==> ps[n].since == if ps[n].state != ps[n - 1].state then samples[n - 1].now else ps[n - 1].since
  {
    if n > 0 {
      TransitionsAreCounted(samples, ps, n - 1);
      TransitionCounts(ps[n - 1], samples[n - 1]);
      hide Update;
    }
  }

  lemma TransitionCounts(p: Policy, s: Sample)
    ensures var q := Update(p, s);
            && q.transitions == p.transitions + (if q.state != p.state then 1 else 0)
            && q.entries == p.entries + (if q.state.LowTotalMemory? && !p.state.LowTotalMemory? then 1 else 0)
            && q.recoveries == p.recoveries + (if q.state.Normal? && !p.state.Normal? then 1 else 0)
            && q.since == (if q.state != p.state then s.now else p.since)
            && q.minima.free == Minimum(p.minima.free, s.free) && q.minima.largest == Minimum(p.minima.largest, s.largest)
            && q.minima.tls == (if Exempt(s) && s.context in {TlsPreparing, TlsActive} then Minimum(p.minima.tls, s.free)
                                else p.minima.tls)
            && q.minima.ota == (if Exempt(s) && s.context.OtaActive? then Minimum(p.minima.ota, s.free) else p.minima.ota)
  {
  }

  /** The value recorded after all of `xs`, starting from none. */
  function Lowest(xs: seq<u32>): u32
  {
    if xs == [] then 0 else Minimum(Lowest(xs[..|xs| - 1]), xs[|xs| - 1])
  }

  /**
   * Zero stands for nothing recorded yet, so a figure of zero is forgotten with the next one: what is recorded is
   * the least of the figures if and only if none of them is zero or the last one is.
   */
  lemma {:induction false} LowestIsLeastIff(xs: seq<u32>)
    requires xs != []
    ensures Lowest(xs) in xs
    ensures (forall i :: 0 <= i < |xs| ==> Lowest(xs) <= xs[i]) <==> 0 !in xs || xs[|xs| - 1] == 0
    ensures Lowest(xs) == 0 <==> xs[|xs| - 1] == 0
  {
    var front, last := xs[..|xs| - 1], xs[|xs| - 1];
    assert xs == front + [last];
    if front != [] {
      LowestIsLeastIff(front);
      assert forall i :: 0 <= i < |front| ==> xs[i] == front[i];
      if 0 in front && last != 0 {
        var i :| 0 <= i < |front| && front[i] == 0;
        assert xs[i] == 0;
      }
    }
  }

  /** The minima of the free bytes and of the largest block are recorded that way over all samples. */
  lemma {:induction false} MinimaAreLowest(samples: seq<Sample>, ps: seq<Policy>, n: nat)
    requires Run(samples, ps) && n <= |samples|
    ensures ps[n].minima.free == Lowest(FreeOf(samples[..n])) && ps[n].minima.largest == Lowest(LargestOf(samples[..n]))
  {
    if n > 0 {
      MinimaAreLowest(samples, ps, n - 1);
      TransitionCounts(ps[n - 1], samples[n - 1]);
      assert FreeOf(samples[..n])[..n - 1] == FreeOf(samples[..n - 1]);
      assert LargestOf(samples[..n])[..n - 1] == LargestOf(samples[..n - 1]);
      hide Update;
    }
  }

  function FreeOf(samples: seq<Sample>): (r: seq<u32>)
    ensures |r| == |samples|
  {
    seq(|samples|, i requires 0 <= i < |samples| => samples[i].free)
  }

  function LargestOf(samples: seq<Sample>): (r: seq<u32>)
    ensures |r| == |samples|
  {
    seq(|samples|, i requires 0 <= i < |samples| => samples[i].largest)
  }

  /** What `metrics` reports at `now`: the closed time plus the open episode. */
  function ReportedCumulative(p: Policy, now: u64): nat
  {
    p.pressure.cumulative + Elapsed(p.pressure.started, now)
  }

  function ReportedLongest(p: Policy, now: u64): u64
  {
    Max(p.pressure.longest, Elapsed(p.pressure.started, now))
  }

  /** Reported cumulative time is the total time outside Normal up to the moment of the report. */
  lemma ReportedTimeIsTotal(samples: seq<Sample>, ps: seq<Policy>, n: nat, now: u64)
    requires Run(samples, ps) && Monotone(samples) && 0 < n <= |samples| && now >= samples[n - 1].now
    ensures ReportedCumulative(ps[n], now)
         == TimeOutside(samples, ps, n) + (if ps[n].state.Normal? then 0 else now - samples[n - 1].now)
    ensures ReportedLongest(ps[n], now) <= ReportedCumulative(ps[n], now)
  {
    TimeIsAccounted(samples, ps, n);
  }

  // ----- the class -----------------------------------------------------------------------------

  class MemoryPressurePolicy {
    var state: Pressure
    var context: Context
    var since: u64
    var transitions: nat
    var entries: nat
    var recoveries: nat
    var pressure: Episodes
    var fragments: Fragments
    var minima: Minima
    var lowSamples: nat
    var safeSamples: nat
    var tlsReady: bool
    var integrityOk: bool

    constructor ()
      ensures Snapshot() == INITIAL
    {
      state, context, since, transitions, entries, recoveries := Normal, Idle, 0, 0, 0, 0;
      pressure, fragments, minima := Episodes(0, 0, 0), Fragments(0, 0, 0, 0, 0), Minima(0, 0, 0, 0);
      lowSamples, safeSamples, tlsReady, integrityOk := 0, 0, false, true;
    }

    function Snapshot(): Policy
      reads this
    {
      Policy(state, since, transitions, entries, recoveries, lowSamples, safeSamples, pressure, fragments,
             minima, tlsReady, integrityOk, context)
    }

    method UpdateFragmentationEpisode(fragmented: bool, free: u32, now: u64)
      modifies `fragments
      ensures fragments == FragmentStep(old(fragments), fragmented, free, now)
    {
      var f := fragments;
      if fragmented && f.started == 0 {
        fragments := f.(started := if now == 0 then 1 else now, freeAtEntry := free, entries := f.entries + 1);
        return;
      }
      if !fragmented && f.started != 0 {
        var duration := if now >= f.started then now - f.started else 0;
        if duration > f.longest {
          fragments := fragments.(longest := duration);
        }
        fragments := fragments.(started := 0, recoveries := f.recoveries + 1);
      }
    }

    /** The bookkeeping of an episode that opens or closes. */
    method OpenOrCloseEpisode(next: Pressure, now: u64)
      requires next != state
      modifies `pressure, `recoveries
      ensures pressure == EpisodeStep(old(pressure), state, next, now)
      ensures recoveries == old(recoveries) + (if next.Normal? then 1 else 0)
    {
      if state.Normal? && !next.Normal? {
        pressure := pressure.(started := if now == 0 then 1 else now);
      }
      if next.Normal? && !state.Normal? {
        if pressure.started != 0 && now >= pressure.started {
          var duration := now - pressure.started;
          pressure := pressure.(cumulative := pressure.cumulative + duration);
          if duration > pressure.longest {
            pressure := pressure.(longest := duration);
          }
        }
        pressure := pressure.(started := 0);
        recoveries := recoveries + 1;
      }
    }

    method MoveTo(next: Pressure, now: u64)
      modifies this
      ensures Snapshot() == Transition(old(Snapshot()), next, now)
    {
      if next == state {
        return;
      }
      OpenOrCloseEpisode(next, now);
      if next.LowTotalMemory? {
        entries := entries + 1;
      }
      state := next;
      since := now;
      transitions := transitions + 1;
      if next.LowTotalMemory? {
        lowSamples := 0;
      }
      if next.Recovering? || next.Normal? {
        safeSamples := 0;
      }
    }

    /** Fault and emergency samples close the fragmentation episode and go straight to LowTotalMemory. */
    method FailLow(s: Sample)
      modifies this
      ensures Snapshot() == Fail(old(Snapshot()), s)
    {
      UpdateFragmentationEpisode(false, s.free, s.now);
      MoveTo(LowTotalMemory, s.now);
    }

    /** An expected dip is noted for its operation and restarts both counters. */
    method NoteExpected(s: Sample)
      modifies `minima, `lowSamples, `safeSamples
      ensures lowSamples == 0 && safeSamples == 0
      ensures minima == NoteDip(old(minima), s)
    {
      if s.context.OtaActive? {
        minima := minima.(ota := Minimum(minima.ota, s.free));
      } else {
        minima := minima.(tls := Minimum(minima.tls, s.free));
      }
      lowSamples := 0;
      safeSamples := 0;
    }

    method NoteSample(s: Sample)
      modifies `context, `integrityOk, `tlsReady, `minima
      ensures Snapshot() == Observe(old(Snapshot()), s)
    {
      context := s.context;
      integrityOk := s.integrityOk;
      tlsReady := s.integrityOk && s.free >= FRAGMENTATION_FREE && s.largest >= NORMAL_LARGEST;
      minima := minima.(free := Minimum(minima.free, s.free), largest := Minimum(minima.largest, s.largest));
    }

    method Record(s: Sample) returns (previous: Pressure, changed: bool)
      modifies this
      ensures Snapshot() == Update(old(Snapshot()), s)
      ensures previous == old(state) && changed == (state != old(state))
    {
      NoteSample(s);
      previous := state;
      if !s.integrityOk || s.allocationFailed {
        FailLow(s);
        return previous, previous != state;
      }
      if ExpectedHighMemory(s.context) {
        NoteExpected(s);
        return previous, false;
      }
      if s.lastCompleted != 0 && s.now >= s.lastCompleted && s.now - s.lastCompleted < POST_OPERATION_GRACE_MS {
        lowSamples := 0;
        safeSamples := 0;
        return previous, false;
      }
      if s.free < EMERGENCY_FREE {
        FailLow(s);
        return previous, previous != state;
      }
      RecordClassified(s);
      changed := previous != state;
    }

    /** The part of an update after the faults, the expected operations and the emergency floor. */
    method RecordClassified(s: Sample)
      requires var c := Classify(s); c.Low? || c.Fragmentation? || c.Safe? || c.Between?
      modifies this
      ensures Snapshot() == Settle(old(Snapshot()), s)
    {
      var fragmented := s.free >= FRAGMENTATION_FREE && s.largest < NORMAL_LARGEST;
      var low := s.free < LOW_TOTAL;
      var safe := s.free >= NORMAL_FREE && s.largest >= NORMAL_LARGEST;
      UpdateFragmentationEpisode(fragmented, s.free, s.now);
      lowSamples := if low then Increment(lowSamples) else 0;
      safeSamples := if safe then Increment(safeSamples) else 0;
      if low {
        if state.LowTotalMemory? || lowSamples >= SAMPLES_REQUIRED {
          MoveTo(LowTotalMemory, s.now);
        } else {
          MoveTo(PressureWarning, s.now);
        }
      } else if fragmented {
        MoveTo(Fragmented, s.now);
      } else if safe {
        match state {
          case Normal =>
          case PressureWarning =>
            if safeSamples >= SAMPLES_REQUIRED {
              MoveTo(Normal, s.now);
            }
          case Fragmented =>
            if safeSamples >= SAMPLES_REQUIRED {
              MoveTo(Recovering, s.now);
            }
          case LowTotalMemory =>
            if safeSamples >= SAMPLES_REQUIRED {
              MoveTo(Recovering, s.now);
            }
          case Recovering =>
            if safeSamples >= SAMPLES_REQUIRED {
              MoveTo(Normal, s.now);
            }
        }
      } else {
        MoveTo(if state.LowTotalMemory? then Recovering else PressureWarning, s.now);
      }
    }

    /** The time figures of `metrics`. */
    method Metrics(now: u64) returns (cumulative: nat, longest: u64, currentFragment: u64, longestFragmentation: u64)
      ensures cumulative == ReportedCumulative(Snapshot(), now)
      ensures longest == ReportedLongest(Snapshot(), now)
      ensures currentFragment == Elapsed(fragments.started, now)
      ensures longestFragmentation == Max(fragments.longest, currentFragment)
    {
      cumulative := pressure.cumulative;
      longest := pressure.longest;
      if pressure.started != 0 && now >= pressure.started {
        var active := now - pressure.started;
        cumulative := cumulative + active;
        if active > longest {
          longest := active;
        }
      }
      currentFragment := if fragments.started != 0 && now >= fragments.started then now - fragments.started else 0;
      longestFragmentation := if currentFragment > fragments.longest then currentFragment else fragments.longest;
    }
  }
}
