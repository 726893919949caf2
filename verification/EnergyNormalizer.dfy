/**
 * EnergyNormalizer of src/core/Algorithms.cpp: a 32-bit energy counter that rolls over, resets and is coarse,
 * turned into interval energies and a lifetime total. Integrated energies are real numbers.
 */
module EnergyNormalizers {
  import opened Bytes

  const COUNTER_RANGE: nat := 0x1_0000_0000
  const U64_MAX: u64 := U64_LIMIT - 1

  datatype EnergyMethod = PzemDelta | PowerIntegration | PzemRollover | PzemReset | Incomplete

  datatype Flag = EnergyIntegrated | CounterRollover | CounterReset | EnergyIncomplete

  /** The arguments of one update; a raw reading is absent when it is not valid. */
  datatype Reading = Reading(start: Option<u64>, end: Option<u64>, integrated: real, complete: bool)

  datatype EnergyResult = EnergyResult(interval: real, energyMethod: EnergyMethod, flag: Option<Flag>,
                                       offset: u64, offsetChanged: bool, lifetime: u64)

  /** The normalizer's fields. */
  datatype State = State(offset: u64, baseline: u64, lastLifetime: u64, unreconciled: real)

  // ----- what one update means -----------------------------------------------------------------------

  datatype Kind = Advance | Rollover | Reset

  /** How the counter got from one reading to the next. */
  function KindOf(start: u64, end: u64): Kind
  {
    if end >= start then Advance
    else if start > 0xFFF0_0000 && end < 0x10_0000 then Rollover
    else Reset
  }

  /** The energy that passed the counter between two readings. */
  function CounterInterval(start: u64, end: u64): int
  {
    match KindOf(start, end)
    case Advance => end - start
    case Rollover => COUNTER_RANGE - start + end
    case Reset => end
  }

  /** What the offset has to gain for the sum of offset and reading to advance by that. */
  function OffsetGain(start: u64, end: u64): nat
  {
    match KindOf(start, end)
    case Advance => 0
    case Rollover => COUNTER_RANGE
    case Reset => start
  }

  function Max(a: real, b: real): real { if a < b then b else a }

  /** Energy is bridged by power integration while the counter stands still, and until it catches up. */
  predicate Bridged(s: State, r: Reading)
    requires r.start.Some? && r.end.Some? && KindOf(r.start.value, r.end.value).Advance?
  {
    var delta := (r.end.value - r.start.value) as real;
    if delta == 0.0 then r.complete && r.integrated > 0.0 else s.unreconciled > 0.0
  }

  function Interval(s: State, r: Reading): real
  {
    if r.start.None? || r.end.None? then (if r.complete && r.integrated >= 0.0 then r.integrated else Max(0.0, r.integrated))
    else if KindOf(r.start.value, r.end.value).Advance? && Bridged(s, r) then
      if r.complete && r.integrated >= 0.0 then r.integrated
      else Max(0.0, (r.end.value - r.start.value) as real - s.unreconciled)
    else (CounterInterval(r.start.value, r.end.value) % U64_LIMIT) as real
  }

  /** Half away from zero, as llround, for non-negative values. */
  function Rounded(x: real): int { (x + 0.5).Floor }

  function Saturating(a: u64, b: nat): u64
  {
    if b > U64_MAX - a then U64_MAX else a + b
  }

  function Above(total: nat, baseline: u64): nat
  {
    if total > baseline then total - baseline else 0
  }

  predicate Legal(r: Reading)
  {
    r.integrated < 0x4000_0000_0000_0000 as real
  }

  lemma IntervalBounds(s: State, r: Reading)
    ensures Interval(s, r) >= 0.0
    ensures r.end.None? && Legal(r) ==> 0 <= Rounded(Interval(s, r)) < U64_LIMIT
  {
  }

  class EnergyNormalizer {
    var offset: u64
    const baseline: u64
    var lastLifetime: u64
    var unreconciled: real

    constructor (persistedOffset: u64, baselineAbsolute: u64)
      ensures Value() == State(persistedOffset, baselineAbsolute, 0, 0.0)
    {
      offset := persistedOffset;
      baseline := baselineAbsolute;
      lastLifetime := 0;
      unreconciled := 0.0;
    }

    function Value(): State
      reads this
    {
      State(offset, baseline, lastLifetime, unreconciled)
    }

    method Update(r: Reading) returns (result: EnergyResult)
      requires Legal(r)
      modifies this
      ensures Updated(old(Value()), Value(), r)
      ensures result.interval == Interval(old(Value()), r)
      ensures result.offset == offset && result.lifetime == lastLifetime
      ensures Classified(old(Value()), r, result.energyMethod, result.flag, result.offsetChanged)
    {
      IntervalBounds(Value(), r);
      var interval, energyMethod, flag, changed := Account(r);
      var lifetime;
      if r.end.Some? {
        var absolute := if r.end.value > U64_MAX - offset then U64_MAX else offset + r.end.value;
        lifetime := if absolute > baseline then absolute - baseline else 0;
      } else {
        lifetime := Saturating(lastLifetime, Rounded(interval));
      }
      lastLifetime := if lifetime < lastLifetime then lastLifetime else lifetime;
      result := EnergyResult(interval, energyMethod, flag, offset, changed, lastLifetime);
    }

    /** The interval's energy, with the offset and the unreconciled energy brought up to date. */
    method Account(r: Reading) returns (interval: real, energyMethod: EnergyMethod, flag: Option<Flag>, changed: bool)
      modifies this`offset, this`unreconciled
      ensures offset == OffsetAfter(old(Value()), r) && unreconciled == Unreconciled(old(Value()), r)
      ensures interval == Interval(old(Value()), r)
      ensures Classified(old(Value()), r, energyMethod, flag, changed)
    {
      changed := false;
      if r.start.Some? && r.end.Some? && r.end.value >= r.start.value {
        var delta := (r.end.value - r.start.value) as real;
        if r.complete && r.integrated > 0.0 && delta == 0.0 {
          interval, energyMethod, flag := r.integrated, PowerIntegration, Some(EnergyIntegrated);
          unreconciled := unreconciled + r.integrated;
        } else if delta > 0.0 && unreconciled > 0.0 {
          interval := if r.complete && r.integrated >= 0.0 then r.integrated else Max(0.0, delta - unreconciled);
          energyMethod, flag := PowerIntegration, Some(EnergyIntegrated);
          unreconciled := Max(0.0, unreconciled - delta);
        } else {
          interval, energyMethod, flag := delta, PzemDelta, None;
        }
      } else if r.start.Some? && r.end.Some? && r.start.value > 0xFFF0_0000 && r.end.value < 0x10_0000 {
        offset := (offset + COUNTER_RANGE) % U64_LIMIT;
        changed := true;
        interval := ((COUNTER_RANGE - r.start.value + r.end.value) % U64_LIMIT) as real;
        energyMethod, flag := PzemRollover, Some(CounterRollover);
        unreconciled := 0.0;
      } else if r.start.Some? && r.end.Some? {
        offset := (offset + r.start.value) % U64_LIMIT;
        changed := true;
        interval, energyMethod, flag := r.end.value as real, PzemReset, Some(CounterReset);
        unreconciled := 0.0;
      } else if r.complete && r.integrated >= 0.0 {
        interval, energyMethod, flag := r.integrated, PowerIntegration, Some(EnergyIntegrated);
      } else {
        interval, energyMethod, flag := Max(0.0, r.integrated), Incomplete, Some(EnergyIncomplete);
      }
    }
  }

  /** Which method, flag and offset change an update reports. */
  predicate Classified(s: State, r: Reading, energyMethod: EnergyMethod, flag: Option<Flag>, changed: bool)
  {
    var pair := r.start.Some? && r.end.Some?;
    && changed == (pair && !KindOf(r.start.value, r.end.value).Advance?)
    && energyMethod ==
         (if !pair then (if r.complete && r.integrated >= 0.0 then PowerIntegration else Incomplete)
          else match KindOf(r.start.value, r.end.value)
               case Rollover => PzemRollover
               case Reset => PzemReset
               case Advance => if Bridged(s, r) then PowerIntegration else PzemDelta)
    && flag ==
         match energyMethod
         case PzemDelta => None
         case PowerIntegration => Some(EnergyIntegrated)
         case PzemRollover => Some(CounterRollover)
         case PzemReset => Some(CounterReset)
         case Incomplete => Some(EnergyIncomplete)
  }

  function OffsetAfter(s: State, r: Reading): u64
  {
    if r.start.Some? && r.end.Some? then (s.offset + OffsetGain(r.start.value, r.end.value)) % U64_LIMIT else s.offset
  }

  /** The state after an update: the offset, the lifetime total, and the energy still to be reconciled. */
  ghost predicate Updated(s: State, t: State, r: Reading)
  {
    && t.baseline == s.baseline
    && t.offset == OffsetAfter(s, r)
    && t.lastLifetime >= s.lastLifetime
    && (r.end.Some? ==>
          var now := Above(Saturating(t.offset, r.end.value), t.baseline);
          t.lastLifetime == if now < s.lastLifetime then s.lastLifetime else now)
    && (r.end.None? && Legal(r) ==> t.lastLifetime == Saturating(s.lastLifetime, Rounded(Interval(s, r))))
    && t.unreconciled == Unreconciled(s, r)
  }

  function Unreconciled(s: State, r: Reading): real
  {
    if r.start.None? || r.end.None? then s.unreconciled
    else if !KindOf(r.start.value, r.end.value).Advance? then 0.0
    else if !Bridged(s, r) then s.unreconciled
    else if r.start.value == r.end.value then s.unreconciled + r.integrated
    else Max(0.0, s.unreconciled - (r.end.value - r.start.value) as real)
  }

  // ----- runs of chained readings ----------------------------------------------------------------------

  ghost predicate Run(states: seq<State>, readings: seq<Reading>)
  {
    && |states| == |readings| + 1
    && forall i :: 0 <= i < |readings| ==> Updated(states[i], states[i + 1], readings[i])
  }

  /** Every reading is of the 32-bit counter, and each update starts where the one before ended. */
  predicate Chained(readings: seq<Reading>)
  {
    && (forall i :: 0 <= i < |readings| ==> Valid32(readings[i]))
    && (forall i :: 0 <= i < |readings| - 1 ==> readings[i].end == readings[i + 1].start)
  }

  predicate Valid32(r: Reading)
  {
    && r.start.Some? && r.start.value < COUNTER_RANGE
    && r.end.Some? && r.end.value < COUNTER_RANGE
  }

  /** The energy that passed the counter in the first `n` updates. */
  function Passed(readings: seq<Reading>, n: nat): nat
    requires n <= |readings| && Chained(readings)
  {
    if n == 0 then 0
    else
      assert Valid32(readings[n - 1]);
      Passed(readings, n - 1) + CounterInterval(readings[n - 1].start.value, readings[n - 1].end.value)
  }

  /** Between readings below 2^32 the counter interval is the gain of offset plus reading, and never negative. */
  lemma OneUpdateAdvances(start: u64, end: u64)
    requires start < COUNTER_RANGE && end < COUNTER_RANGE
    ensures OffsetGain(start, end) + end - start == CounterInterval(start, end)
    ensures CounterInterval(start, end) >= 0
  {
  }

  /**
   * A counter that decreases, on the figures: from the last 2^20 numbers of the 32-bit range to the first 2^20 it has
   * rolled over, and the interval is the difference modulo 2^32; from anywhere else it was reset, and has counted `end`.
   */
  lemma DecreaseIsRolloverOrReset(s: State, r: Reading, m: EnergyMethod, flag: Option<Flag>, changed: bool)
    requires Valid32(r) && r.end.value < r.start.value && Classified(s, r, m, flag, changed)
    ensures changed
    ensures if r.start.value > 0xFFF0_0000 && r.end.value < 0x10_0000 then
              && m == PzemRollover && flag == Some(CounterRollover)
              && Interval(s, r) == ((r.end.value - r.start.value) % 0x1_0000_0000) as real
              && OffsetAfter(s, r) == (s.offset + 0x1_0000_0000) % U64_LIMIT
            else
              && m == PzemReset && flag == Some(CounterReset)
              && Interval(s, r) == r.end.value as real
              && OffsetAfter(s, r) == (s.offset + r.start.value) % U64_LIMIT
    ensures Unreconciled(s, r) == 0.0
  {
  }

  /**
   * A counter that does not decrease: power integration is reported exactly when the update changes the energy still
   * to be reconciled, and otherwise the interval is what the counter gained.
   */
  lemma BridgingIsReported(s: State, r: Reading, m: EnergyMethod, flag: Option<Flag>, changed: bool)
    requires Valid32(r) && r.start.value <= r.end.value && Classified(s, r, m, flag, changed) && s.unreconciled >= 0.0
    ensures !changed && OffsetAfter(s, r) == s.offset
    ensures if Unreconciled(s, r) != s.unreconciled then m == PowerIntegration && flag == Some(EnergyIntegrated)
            else m == PzemDelta && flag == None && Interval(s, r) == (r.end.value - r.start.value) as real
  {
  }

  /** Without both readings it is power integration, when that is complete and not negative, or nothing is. */
  lemma UnpairedIsIntegrated(s: State, r: Reading, m: EnergyMethod, flag: Option<Flag>, changed: bool)
    requires (r.start.None? || r.end.None?) && Classified(s, r, m, flag, changed)
    ensures !changed && OffsetAfter(s, r) == s.offset && Unreconciled(s, r) == s.unreconciled
    ensures if r.complete && r.integrated >= 0.0 then
              m == PowerIntegration && flag == Some(EnergyIntegrated) && Interval(s, r) == r.integrated
            else
              && m == Incomplete && flag == Some(EnergyIncomplete)
              && Interval(s, r) == if r.integrated < 0.0 then 0.0 else r.integrated
  {
  }

  /** Unless bridged, the interval is exactly that energy. */
  lemma PlainIntervalIsCounterInterval(s: State, r: Reading)
    requires Valid32(r) && (KindOf(r.start.value, r.end.value).Advance? ==> !Bridged(s, r))
    ensures Interval(s, r) == CounterInterval(r.start.value, r.end.value) as real
  {
    OneUpdateAdvances(r.start.value, r.end.value);
  }

  lemma OffsetAdvances(s: State, t: State, r: Reading)
    requires Updated(s, t, r) && Valid32(r)
    requires s.offset + r.start.value + CounterInterval(r.start.value, r.end.value) < U64_LIMIT
    ensures t.offset + r.end.value == s.offset + r.start.value + CounterInterval(r.start.value, r.end.value)
  {
    OneUpdateAdvances(r.start.value, r.end.value);
    hide Unreconciled, Interval, KindOf, CounterInterval, OffsetGain;
  }

  /**
   * Over a run of chained readings, offset plus reading advances by exactly the energy that passed the counter,
   * through every delta, rollover and reset, as long as the total fits in 64 bits.
   */
  lemma {:induction false} OffsetPlusReadingIsExact(states: seq<State>, readings: seq<Reading>, n: nat)
    requires Run(states, readings) && Chained(readings) && 0 < n <= |readings|
    requires states[0].offset + readings[0].start.value + Passed(readings, n) < U64_LIMIT
    ensures states[n].offset + readings[n - 1].end.value ==
              states[0].offset + readings[0].start.value + Passed(readings, n)
    ensures Passed(readings, n) >= Passed(readings, n - 1)
  {
    hide Updated, CounterInterval;
    var r := readings[n - 1];
    assert Valid32(r);
    OneUpdateAdvances(r.start.value, r.end.value);
    if n > 1 {
      OffsetPlusReadingIsExact(states, readings, n - 1);
      assert readings[n - 2].end == readings[n - 2 + 1].start;
    }
    assert Updated(states[n - 1], states[n - 1 + 1], r);
    OffsetAdvances(states[n - 1], states[n], r);
  }

  /**
   * The lifetime total is then exactly that sum less the baseline, from a first update on that does not
   * undercut what was already reported.
   */
  lemma {:induction false} LifetimeIsExact(states: seq<State>, readings: seq<Reading>, n: nat)
    requires Run(states, readings) && Chained(readings) && 0 < n <= |readings|
    requires states[0].offset + readings[0].start.value + Passed(readings, n) < U64_LIMIT
    requires states[0].lastLifetime <= Above(states[0].offset + readings[0].start.value, states[0].baseline)
    ensures states[n].baseline == states[0].baseline
    ensures states[n].lastLifetime ==
              Above(states[0].offset + readings[0].start.value + Passed(readings, n), states[0].baseline)
  {
    OffsetPlusReadingIsExact(states, readings, n);
    assert Updated(states[n - 1], states[n - 1 + 1], readings[n - 1]);
    if n > 1 {
      LifetimeIsExact(states, readings, n - 1);
    }
  }

  /** Whatever is fed to it, valid or not, chained or not, the lifetime total never decreases. */
  lemma {:induction false} LifetimeNeverDecreases(states: seq<State>, readings: seq<Reading>, m: nat, n: nat)
    requires Run(states, readings) && m <= n < |states|
    ensures states[m].lastLifetime <= states[n].lastLifetime
    decreases n
  {
    if m < n {
      LifetimeNeverDecreases(states, readings, m, n - 1);
      assert Updated(states[n - 1], states[n - 1 + 1], readings[n - 1]);
    }
  }

  // ----- reconciliation ----------------------------------------------------------------------------------

  /** What intervals report beyond the counter is what is left to reconcile. */
  ghost predicate Conserves(s: State, r: Reading)
    requires r.start.Some? && r.end.Some?
  {
    Interval(s, r) - CounterInterval(r.start.value, r.end.value) as real == Unreconciled(s, r) - s.unreconciled
  }

  /**
   * Bridging conserves energy while the counter stands still, and when it moves without a complete integration.
   * When it moves with one, the interval is the integrated energy again, and the balance holds if and only if
   * that is just what the counter shows beyond the energy already bridged.
   */
  lemma ReconciliationConservesIff(s: State, r: Reading)
    requires Valid32(r) && KindOf(r.start.value, r.end.value).Advance? && s.unreconciled >= 0.0
    ensures var delta := (r.end.value - r.start.value) as real;
            Conserves(s, r) <==>
              || delta == 0.0 || s.unreconciled == 0.0 || !r.complete || r.integrated < 0.0
              || r.integrated == Max(0.0, delta - s.unreconciled)
  {
  }

  /**
   * What one update leaves out of the balance: a counter that moves during a complete integration is reported
   * again, less what it shows beyond the energy already bridged, and a rollover or reset forgets that energy.
   */
  function Drift(s: State, r: Reading): real
    requires r.start.Some? && r.end.Some?
  {
    if !KindOf(r.start.value, r.end.value).Advance? then s.unreconciled
    else
      var delta := (r.end.value - r.start.value) as real;
      if delta > 0.0 && s.unreconciled > 0.0 && r.complete && r.integrated >= 0.0
      then r.integrated - Max(0.0, delta - s.unreconciled)
      else 0.0
  }

  /** Sums over the first `n` updates. */
  function Reported(states: seq<State>, readings: seq<Reading>, n: nat): real
    requires n <= |readings| <= |states|
  {
    if n == 0 then 0.0 else Reported(states, readings, n - 1) + Interval(states[n - 1], readings[n - 1])
  }

  function Drifted(states: seq<State>, readings: seq<Reading>, n: nat): real
    requires n <= |readings| <= |states| && Chained(readings)
  {
    if n == 0 then 0.0
    else
      assert Valid32(readings[n - 1]);
      Drifted(states, readings, n - 1) + Drift(states[n - 1], readings[n - 1])
  }

  /**
   * The books over a whole run of chained readings: reported energy less the energy that passed the counter is the
   * change of the unreconciled energy plus what drifted.
   */
  lemma {:induction false} BooksBalance(states: seq<State>, readings: seq<Reading>, n: nat)
    requires Run(states, readings) && Chained(readings) && n <= |readings| && states[0].unreconciled >= 0.0
    ensures states[n].unreconciled >= 0.0
    ensures Reported(states, readings, n) - Passed(readings, n) as real ==
              states[n].unreconciled - states[0].unreconciled + Drifted(states, readings, n)
  {
    if n > 0 {
      BooksBalance(states, readings, n - 1);
      var s, r := states[n - 1], readings[n - 1];
      assert Valid32(r);
      assert Updated(s, states[n - 1 + 1], r);
      UpdateBalances(s, r);
      hide Interval, Drift, Unreconciled, CounterInterval, KindOf;
    }
  }

  lemma UpdateBalances(s: State, r: Reading)
    requires Valid32(r) && s.unreconciled >= 0.0
    ensures Unreconciled(s, r) >= 0.0 && CounterInterval(r.start.value, r.end.value) >= 0
    ensures Interval(s, r) - CounterInterval(r.start.value, r.end.value) as real ==
              Unreconciled(s, r) - s.unreconciled + Drift(s, r)
  {
  }

  /**
   * From a fresh normalizer: five one-Wh intervals are bridged while the counter stands still, then it moves by one.
   * Six are reported for the one that passed and the four still to be reconciled.
   */
  lemma ReconciliationCanDrift() returns (states: seq<State>, readings: seq<Reading>)
    ensures Run(states, readings) && Chained(readings) && |readings| == 6 && states[0] == State(0, 0, 0, 0.0)
    ensures Reported(states, readings, 6) == 6.0 && Passed(readings, 6) == 1 && states[6].unreconciled == 4.0
    ensures !Conserves(states[5], readings[5])
  {
    var stands, moves := Reading(Some(100), Some(100), 1.0, true), Reading(Some(100), Some(101), 1.0, true);
    readings := [stands, stands, stands, stands, stands, moves];
    states := [State(0, 0, 0, 0.0), State(0, 0, 100, 1.0), State(0, 0, 100, 2.0), State(0, 0, 100, 3.0),
               State(0, 0, 100, 4.0), State(0, 0, 100, 5.0), State(0, 0, 101, 4.0)];
    forall k | 0 <= k < 5
      ensures Updated(states[k], states[k + 1], stands) && Interval(states[k], stands) == 1.0
    {
    }
    assert Updated(states[5], states[6], moves) && Interval(states[5], moves) == 1.0;
    Stands(states, readings, stands, 5);
  }

  lemma {:induction false} Stands(states: seq<State>, readings: seq<Reading>, stands: Reading, n: nat)
    requires n < |readings| < |states| && Chained(readings)
    requires stands == Reading(Some(100), Some(100), 1.0, true)
    requires forall k :: 0 <= k < n ==> readings[k] == stands && Interval(states[k], readings[k]) == 1.0
    ensures Reported(states, readings, n) == n as real && Passed(readings, n) == 0
  {
    if n > 0 {
      Stands(states, readings, stands, n - 1);
    }
  }
}
