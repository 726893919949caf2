/**
 * IntervalAggregator of src/core/Algorithms.cpp: one interval's averages, extremes and trapezoid energy.
 * Measurements are real numbers. Power factor and frequency, which are only averaged, are left out.
 */
module IntervalAggregators {
  import opened Bytes
  import opened EnergyNormalizers

  /** The sentinels of the source: no finite measurement is beyond them. */
  const FLOAT_MAX: real := 340282346638528859811704183484516925440.0
  const MS_PER_HOUR: real := 3600000.0
  const FALLBACK_EPOCH_MS: nat := 1_704_067_200_000
  const MAXIMUM_WIRE_INTERVAL_MS: nat := 86_400_000

  datatype Sample = Sample(monotonic: u64, utc: u64, valid: bool, trusted: bool,
                           voltage: real, current: real, power: real, raw: u64)

  /** Sum, least and greatest of a measured channel. */
  datatype Channel = Channel(sum: real, least: real, greatest: real)

  const EMPTY := Channel(0.0, FLOAT_MAX, -FLOAT_MAX)

  function With(c: Channel, x: real): Channel
  {
    Channel(c.sum + x, if x < c.least then x else c.least, if c.greatest < x then x else c.greatest)
  }

  predicate Finite(x: real) { -FLOAT_MAX <= x <= FLOAT_MAX }

  predicate FiniteSample(s: Sample) { Finite(s.voltage) && Finite(s.current) && Finite(s.power) }

  // ----- reference definitions over the samples taken ------------------------------------------------

  /** The samples that count: each later than the one before; repeats and steps back are passed over. */
  function Taken(offered: seq<Sample>): seq<Sample>
  {
    if offered == [] then []
    else
      var before, s := Taken(offered[..|offered| - 1]), offered[|offered| - 1];
      if before != [] && s.monotonic <= before[|before| - 1].monotonic then before else before + [s]
  }

  ghost predicate Rising(taken: seq<Sample>)
  {
    forall i, j :: 0 <= i < j < |taken| ==> taken[i].monotonic < taken[j].monotonic
  }

  function Voltages(taken: seq<Sample>): seq<real>
  {
    if taken == [] then []
    else
      var s := taken[|taken| - 1];
      Voltages(taken[..|taken| - 1]) + (if s.valid then [s.voltage] else [])
  }

  function Currents(taken: seq<Sample>): seq<real>
  {
    if taken == [] then []
    else
      var s := taken[|taken| - 1];
      Currents(taken[..|taken| - 1]) + (if s.valid then [s.current] else [])
  }

  function Powers(taken: seq<Sample>): seq<real>
  {
    if taken == [] then []
    else
      var s := taken[|taken| - 1];
      Powers(taken[..|taken| - 1]) + (if s.valid then [s.power] else [])
  }

  function Sum(xs: seq<real>): real
  {
    if xs == [] then 0.0 else Sum(xs[..|xs| - 1]) + xs[|xs| - 1]
  }

  /** The channel holds the sum of the values and, if there are any, the least and the greatest of them. */
  ghost predicate Summarises(c: Channel, xs: seq<real>)
  {
    && c.sum == Sum(xs)
    && (if xs == [] then c == EMPTY else Extremes(c.least, c.greatest, xs))
  }

  ghost predicate Extremes(least: real, greatest: real, xs: seq<real>)
  {
    && least in xs && greatest in xs
    && forall x :: x in xs ==> least <= x <= greatest
  }

  lemma WithSummarises(c: Channel, xs: seq<real>, x: real)
    requires Summarises(c, xs) && Finite(x)
    ensures Summarises(With(c, x), xs + [x])
  {
    assert (xs + [x])[..|xs|] == xs;
    var d := With(c, x);
    assert x in xs + [x];
    if xs != [] {
      assert d.least in xs + [x] && d.greatest in xs + [x];
    }
  }

  /** The trapezoid energy in Wh: over each gap between neighbouring valid samples, the mean of their powers. */
  function Trapezoid(taken: seq<Sample>): real
  {
    if |taken| < 2 then 0.0
    else
      Trapezoid(taken[..|taken| - 1]) + GapEnergy(taken[|taken| - 2], taken[|taken| - 1])
  }

  /** The hours those gaps cover. */
  function Covered(taken: seq<Sample>): real
  {
    if |taken| < 2 then 0.0
    else
      Covered(taken[..|taken| - 1]) + GapHours(taken[|taken| - 2], taken[|taken| - 1])
  }

  function Hours(a: Sample, b: Sample): real
  {
    (b.monotonic - a.monotonic) as int as real / MS_PER_HOUR
  }

  function GapEnergy(a: Sample, b: Sample): real
  {
    if a.valid && b.valid then (a.power + b.power) * 0.5 * Hours(a, b) else 0.0
  }

  function GapHours(a: Sample, b: Sample): real
  {
    if a.valid && b.valid then Hours(a, b) else 0.0
  }

  // ----- what they mean ---------------------------------------------------------------------------------

  lemma {:induction false} SumBounds(xs: seq<real>, least: real, greatest: real)
    requires forall x :: x in xs ==> least <= x <= greatest
    ensures least * |xs| as real <= Sum(xs) <= greatest * |xs| as real
  {
    if xs != [] {
      var last := |xs| - 1;
      assert xs[last] in xs;
      assert forall x :: x in xs[..last] ==> x in xs;
      SumBounds(xs[..last], least, greatest);
      assert least * |xs| as real == least * last as real + least;
      assert greatest * |xs| as real == greatest * last as real + greatest;
    }
  }

  lemma AverageBetween(xs: seq<real>, least: real, greatest: real)
    requires xs != [] && forall x :: x in xs ==> least <= x <= greatest
    ensures least <= Sum(xs) / |xs| as real <= greatest
    ensures Sum(xs) / |xs| as real * |xs| as real == Sum(xs)
  {
    SumBounds(xs, least, greatest);
    Quotient(Sum(xs), |xs| as real, least, greatest);
  }

  lemma Quotient(total: real, count: real, least: real, greatest: real)
    requires count > 0.0 && least * count <= total <= greatest * count
    ensures least <= total / count <= greatest
  {
    var q := total / count;
    assert q * count == total;
    if q < least { Scaled(q, least, count); }
    if greatest < q { Scaled(greatest, q, count); }
  }

  lemma Scaled(a: real, b: real, count: real)
    requires a < b && count > 0.0
    ensures a * count < b * count
  {
    assert (b - a) * count > 0.0;
  }

  ghost predicate PowersBetween(taken: seq<Sample>, low: real, high: real)
  {
    forall i :: 0 <= i < |taken| && taken[i].valid ==> low <= taken[i].power <= high
  }

  /** The energy is what some power between `low` and `high` would bring in those hours. */
  predicate EnergyBetween(energy: real, hours: real, low: real, high: real)
  {
    hours >= 0.0 && low * hours <= energy <= high * hours
  }

  /** The trapezoid energy lies between the least and the greatest power times the hours covered. */
  lemma {:induction false} TrapezoidBetween(taken: seq<Sample>, low: real, high: real)
    requires Rising(taken) && PowersBetween(taken, low, high)
    ensures EnergyBetween(Trapezoid(taken), Covered(taken), low, high)
  {
    if |taken| >= 2 {
      hide EnergyBetween, GapEnergy, GapHours;
      var n := |taken| - 1;
      TrapezoidBetween(taken[..n], low, high);
      GapBetween(taken[n - 1], taken[n], low, high);
      AddBounds(Trapezoid(taken[..n]), Covered(taken[..n]), GapEnergy(taken[n - 1], taken[n]),
                GapHours(taken[n - 1], taken[n]), low, high);
    }
  }

  lemma AddBounds(x: real, a: real, y: real, b: real, low: real, high: real)
    requires EnergyBetween(x, a, low, high) && EnergyBetween(y, b, low, high)
    ensures EnergyBetween(x + y, a + b, low, high)
  {
    Distribute(low, a, b);
    Distribute(high, a, b);
  }

  lemma GapBetween(a: Sample, b: Sample, low: real, high: real)
    requires a.monotonic < b.monotonic
    requires a.valid ==> low <= a.power <= high
    requires b.valid ==> low <= b.power <= high
    ensures EnergyBetween(GapEnergy(a, b), GapHours(a, b), low, high)
  {
    if a.valid && b.valid {
      OneGap((a.power + b.power) * 0.5, Hours(a, b), low, high);
    }
  }

  lemma OneGap(mean: real, hours: real, low: real, high: real)
    requires low <= mean <= high && hours >= 0.0
    ensures low * hours <= mean * hours <= high * hours
  {
    assert (mean - low) * hours >= 0.0 && (high - mean) * hours >= 0.0;
  }

  lemma Distribute(x: real, a: real, b: real)
    ensures x * (a + b) == x * a + x * b
  {
  }

  /** The hours from the first sample to the last. */
  function Span(taken: seq<Sample>): real
    requires taken != []
  {
    Hours(taken[0], taken[|taken| - 1])
  }

  /** When every sample is valid, the hours covered are the whole span from the first to the last. */
  lemma {:induction false} AllValidCoversSpan(taken: seq<Sample>)
    requires taken != [] && forall i :: 0 <= i < |taken| ==> taken[i].valid
    ensures Covered(taken) == Span(taken)
  {
    if |taken| >= 2 {
      AllValidCoversSpan(taken[..|taken| - 1]);
    }
  }

  lemma {:induction false} TakenRises(offered: seq<Sample>)
    ensures Rising(Taken(offered))
  {
    if offered != [] {
      TakenRises(offered[..|offered| - 1]);
    }
  }

  // ----- the wire interval ------------------------------------------------------------------------------

  /** The start and end a record carries: as given if trusted, else the monotonic duration before the best end. */
  function WireInterval(start: nat, end: nat, startMonotonic: nat, endMonotonic: nat, trusted: bool): (r: (nat, nat))
    ensures trusted ==> r == (start, end)
    ensures !trusted ==>
              var duration := if endMonotonic < startMonotonic then 0
                              else if endMonotonic - startMonotonic > MAXIMUM_WIRE_INTERVAL_MS then MAXIMUM_WIRE_INTERVAL_MS
                              else endMonotonic - startMonotonic;
              && r.1 - r.0 == (if duration == 0 then 1 else duration)
              && FALLBACK_EPOCH_MS <= r.0 && end <= r.1
  {
    if trusted then (start, end)
    else
      var duration := if endMonotonic >= startMonotonic
                      then Least(endMonotonic - startMonotonic, MAXIMUM_WIRE_INTERVAL_MS) else 0;
      var minimumEnd := FALLBACK_EPOCH_MS + Greatest(endMonotonic, duration);
      var anchorEnd := Greatest(Greatest(end, start + duration), minimumEnd);
      var from := if anchorEnd > duration then anchorEnd - duration else FALLBACK_EPOCH_MS;
      (from, if anchorEnd <= from then from + 1 else anchorEnd)
  }

  /**
   * An untrusted interval starts its duration before an anchor: the least moment that is not before the given end, the
   * given start plus the duration, 2024-01-01 plus the monotonic end, or 2024-01-01 plus the duration. It ends at the
   * anchor, or a millisecond later when the duration is nothing.
   */
  lemma WireAnchorIsLeast(start: nat, end: nat, startMonotonic: nat, endMonotonic: nat, other: nat)
    ensures var w := WireInterval(start, end, startMonotonic, endMonotonic, false);
            var elapsed := endMonotonic - startMonotonic;
            var duration := if elapsed < 0 then 0 else if elapsed > 86_400_000 then 86_400_000 else elapsed;
            var anchor := w.0 + duration;
            && w.1 == (if duration == 0 then anchor + 1 else anchor)
            && anchor >= end && anchor >= start + duration
            && anchor >= 1_704_067_200_000 + endMonotonic && anchor >= 1_704_067_200_000 + duration
            && (other < anchor ==>
                  || other < end || other < start + duration
                  || other < 1_704_067_200_000 + endMonotonic || other < 1_704_067_200_000 + duration)
  {
  }

  function Least(a: nat, b: nat): nat { if a < b then a else b }

  function Greatest(a: nat, b: nat): nat { if a < b then b else a }

  /** The first and the last valid counter reading. */
  function FirstRaw(taken: seq<Sample>): Option<u64>
  {
    if taken == [] then None
    else if taken[0].valid then Some(taken[0].raw)
    else FirstRaw(taken[1..])
  }

  function LastRaw(taken: seq<Sample>): Option<u64>
  {
    if taken == [] then None
    else if taken[|taken| - 1].valid then Some(taken[|taken| - 1].raw)
    else LastRaw(taken[..|taken| - 1])
  }

  lemma {:induction false} FirstRawAppend(taken: seq<Sample>, s: Sample)
    ensures FirstRaw(taken + [s]) ==
              if FirstRaw(taken).Some? then FirstRaw(taken) else if s.valid then Some(s.raw) else None
  {
    if taken != [] {
      FirstRawAppend(taken[1..], s);
      assert (taken + [s])[1..] == taken[1..] + [s];
    } else {
      assert [s][1..] == [];
    }
  }

  datatype Average = Average(mean: real, least: real, greatest: real)

  datatype Record = Record(start: nat, end: nat, trusted: bool, samples: nat, validSamples: nat,
                           voltage: Option<Average>, current: Option<Average>, power: Option<Average>,
                           rawStart: Option<u64>, rawEnd: Option<u64>, energy: EnergyResult)

  /** The record's numbers for a channel: the mean, between the extremes, of the valid samples' values. */
  ghost predicate Averages(a: Option<Average>, xs: seq<real>)
  {
    && (a.None? <==> xs == [])
    && (a.Some? ==>
          && Extremes(a.value.least, a.value.greatest, xs)
          && a.value.mean * |xs| as real == Sum(xs)
          && a.value.least <= a.value.mean <= a.value.greatest)
  }

  class IntervalAggregator {
    var start: u64
    var startMonotonic: u64
    var samples: nat
    var validSamples: nat
    var voltage: Channel
    var current: Channel
    var power: Channel
    var integrated: real
    var rawStart: Option<u64>
    var rawEnd: Option<u64>
    var previous: Option<Sample>   // the last sample taken, if it was valid
    var last: Option<Sample>       // the last sample taken
    var allTrusted: bool
    ghost var offered: seq<Sample>
    ghost var taken: seq<Sample>   // those of them that count

    constructor (start: u64, startMonotonic: u64)
      ensures Valid() && offered == [] && this.start == start && this.startMonotonic == startMonotonic
    {
      this.start := start;
      this.startMonotonic := startMonotonic;
      samples, validSamples, integrated := 0, 0, 0.0;
      voltage, current, power := EMPTY, EMPTY, EMPTY;
      rawStart, rawEnd, previous, last := None, None, None, None;
      allTrusted := true;
      offered := [];
      taken := [];
    }

    /** The fields are the reference definitions over the samples taken. */
    ghost predicate Valid()
      reads this
    {
      taken == Taken(offered) && TimesOf(taken) && ChannelsOf(taken) && EnergyOf(taken)
    }

    ghost predicate TimesOf(t: seq<Sample>)
      reads this`samples, this`last, this`allTrusted
    {
      && samples == |t|
      && last == (if t == [] then None else Some(t[|t| - 1]))
      && (allTrusted <==> forall i :: 0 <= i < |t| ==> t[i].trusted)
    }

    ghost predicate ChannelsOf(t: seq<Sample>)
      reads this`validSamples, this`voltage, this`current, this`power
    {
      && validSamples == |Powers(t)| == |Voltages(t)| == |Currents(t)|
      && Summarises(voltage, Voltages(t)) && Summarises(current, Currents(t)) && Summarises(power, Powers(t))
    }

    ghost predicate EnergyOf(t: seq<Sample>)
      reads this`integrated, this`rawStart, this`rawEnd, this`previous
    {
      && integrated == Trapezoid(t)
      && rawStart == FirstRaw(t) && rawEnd == LastRaw(t)
      && previous == (if t == [] || !t[|t| - 1].valid then None else Some(t[|t| - 1]))
    }

    /** The sample is passed over unless it is later than the last one taken. */
    method Add(s: Sample)
      requires Valid() && FiniteSample(s)
      modifies this
      ensures Valid() && start == old(start) && startMonotonic == old(startMonotonic)
      ensures offered == old(offered) + [s]
    {
      hide Taken, ChannelsOf, EnergyOf, FiniteSample;
      TakenAppend(offered, s);
      offered := offered + [s];
      if last.Some? && s.monotonic <= last.value.monotonic {
        return;
      }
      Take(s);
    }

    method Take(s: Sample)
      requires taken != [] ==> taken[|taken| - 1].monotonic < s.monotonic
      requires TimesOf(taken) && ChannelsOf(taken) && EnergyOf(taken) && FiniteSample(s)
      modifies this
      ensures taken == old(taken) + [s] && offered == old(offered)
      ensures start == old(start) && startMonotonic == old(startMonotonic)
      ensures TimesOf(taken) && ChannelsOf(taken) && EnergyOf(taken)
    {
      hide *;
      AddTimes(s);
      if s.valid {
        AddChannels(s);
        AddEnergy(s);
      } else {
        AddNothing(s);
      }
      taken := taken + [s];
    }

    method AddTimes(s: Sample)
      requires TimesOf(taken)
      modifies this`last, this`samples, this`allTrusted
      ensures TimesOf(taken + [s])
    {
      last := Some(s);
      samples := samples + 1;
      allTrusted := allTrusted && s.trusted;
      assert (taken + [s])[|taken|] == s && forall i :: 0 <= i < |taken| ==> (taken + [s])[i] == taken[i];
    }

    method AddNothing(s: Sample)
      requires ChannelsOf(taken) && EnergyOf(taken) && !s.valid
      modifies this`previous
      ensures ChannelsOf(taken + [s]) && EnergyOf(taken + [s])
    {
      Extended(taken, s);
      hide Voltages, Currents, Powers, Trapezoid, FirstRaw, LastRaw, Summarises;
      previous := None;
    }

    method AddChannels(s: Sample)
      requires ChannelsOf(taken) && FiniteSample(s) && s.valid
      modifies this`validSamples, this`voltage, this`current, this`power
      ensures ChannelsOf(taken + [s])
    {
      hide Voltages, Currents, Powers, Summarises;
      Extended(taken, s);
      validSamples := validSamples + 1;
      WithSummarises(voltage, Voltages(taken), s.voltage);
      WithSummarises(current, Currents(taken), s.current);
      WithSummarises(power, Powers(taken), s.power);
      voltage := With(voltage, s.voltage);
      current := With(current, s.current);
      power := With(power, s.power);
    }

    method AddEnergy(s: Sample)
      requires EnergyOf(taken) && s.valid
      requires taken != [] ==> taken[|taken| - 1].monotonic < s.monotonic
      modifies this`integrated, this`rawStart, this`rawEnd, this`previous
      ensures EnergyOf(taken + [s])
    {
      Extended(taken, s);
      hide Trapezoid, FirstRaw, LastRaw, Hours;
      if rawStart.None? {
        rawStart := Some(s.raw);
      }
      rawEnd := Some(s.raw);
      if previous.Some? && s.monotonic > previous.value.monotonic {
        integrated := integrated + (previous.value.power + s.power) * 0.5 * Hours(previous.value, s);
      }
      previous := Some(s);
    }

    lemma Extended(before: seq<Sample>, s: Sample)
      ensures var after := before + [s];
              && Voltages(after) == (if s.valid then Voltages(before) + [s.voltage] else Voltages(before))
              && Currents(after) == (if s.valid then Currents(before) + [s.current] else Currents(before))
              && Powers(after) == (if s.valid then Powers(before) + [s.power] else Powers(before))
              && LastRaw(after) == (if s.valid then Some(s.raw) else LastRaw(before))
              && FirstRaw(after) == (if FirstRaw(before).Some? then FirstRaw(before)
                                     else if s.valid then Some(s.raw) else None)
              && Trapezoid(after) ==
                   Trapezoid(before) + (if before == [] then 0.0 else GapEnergy(before[|before| - 1], s))
    {
      assert (before + [s])[..|before|] == before;
      FirstRawAppend(before, s);
      TrapezoidExtended(before, s);
    }

    lemma TrapezoidExtended(before: seq<Sample>, s: Sample)
      ensures Trapezoid(before + [s]) ==
                Trapezoid(before) + (if before == [] then 0.0 else GapEnergy(before[|before| - 1], s))
    {
      hide GapEnergy;
      assert (before + [s])[..|before|] == before;
    }

    method Summary(c: Channel, ghost xs: seq<real>) returns (a: Option<Average>)
      requires Summarises(c, xs) && |xs| == validSamples
      ensures Averages(a, xs)
    {
      if validSamples == 0 {
        return None;
      }
      AverageBetween(xs, c.least, c.greatest);
      hide Sum;
      a := Some(Average(c.sum / validSamples as real, c.least, c.greatest));
    }

    method Finish(endUtc: u64, endMonotonic: u64, energy: EnergyNormalizer) returns (record: Record)
      requires Valid() && integrated < 0x4000_0000_0000_0000 as real
      modifies energy
      ensures record.samples == |taken| && record.validSamples == |Powers(taken)|
      ensures Averages(record.voltage, Voltages(taken)) && Averages(record.current, Currents(taken))
      ensures Averages(record.power, Powers(taken))
      ensures record.rawStart == FirstRaw(taken) && record.rawEnd == LastRaw(taken)
      ensures record.trusted <==> start != 0 && endUtc != 0 && forall i :: 0 <= i < |taken| ==> taken[i].trusted
      ensures (record.start, record.end) ==
                WireInterval(start, endUtc, startMonotonic, endMonotonic, record.trusted)
      ensures var r := Reading(FirstRaw(taken), LastRaw(taken), Trapezoid(taken),
                               |taken| > 1 && |Powers(taken)| == |taken|);
              && Updated(old(energy.Value()), energy.Value(), r)
              && record.energy.interval == Interval(old(energy.Value()), r)
              && record.energy.lifetime == energy.lastLifetime
      // a complete interval's integrated energy agrees with the extremes it reports and the time it spans
      ensures |taken| > 1 && |Powers(taken)| == |taken| ==>
                record.power.Some? && EnergyBetween(Trapezoid(taken), Span(taken), record.power.value.least,
                                                    record.power.value.greatest)
    {
      hide Voltages, Currents, Powers, Trapezoid, FirstRaw, LastRaw, Taken, WireInterval, Updated, Interval, Sum,
           EnergyBetween;
      var trusted := allTrusted && start != 0 && endUtc != 0;
      var wire := WireInterval(start, endUtc, startMonotonic, endMonotonic, trusted);
      var v := Summary(voltage, Voltages(taken));
      var c := Summary(current, Currents(taken));
      var p := Summary(power, Powers(taken));
      var complete := samples > 1 && validSamples == samples;
      var result := energy.Update(Reading(rawStart, rawEnd, integrated, complete));
      record := Record(wire.0, wire.1, trusted, samples, validSamples, v, c, p, rawStart, rawEnd, result);
      if complete {
        TakenRises(offered);
        CompleteIntervalEnergyBetween(taken, p.value.least, p.value.greatest);
      }
    }
  }

  /** What `Add` makes of a whole series is the samples that count. */
  lemma TakenAppend(offered: seq<Sample>, s: Sample)
    ensures var before := Taken(offered);
            Taken(offered + [s]) ==
              if before != [] && s.monotonic <= before[|before| - 1].monotonic then before else before + [s]
  {
    assert (offered + [s])[..|offered|] == offered;
  }

  lemma {:induction false} AllValidPowers(taken: seq<Sample>)
    ensures |Powers(taken)| <= |taken|
    ensures |Powers(taken)| == |taken| <==> forall i :: 0 <= i < |taken| ==> taken[i].valid
    ensures forall i :: 0 <= i < |taken| && taken[i].valid ==> taken[i].power in Powers(taken)
  {
    if taken != [] {
      AllValidPowers(taken[..|taken| - 1]);
    }
  }

  /**
   * A complete interval bridged by integration: its energy lies between the least and the greatest power times
   * the time from its first sample to its last.
   */
  lemma CompleteIntervalEnergyBetween(taken: seq<Sample>, low: real, high: real)
    requires Rising(taken) && |taken| > 1 && |Powers(taken)| == |taken| && Extremes(low, high, Powers(taken))
    ensures EnergyBetween(Trapezoid(taken), Span(taken), low, high)
  {
    hide Trapezoid, Covered, Powers, EnergyBetween;
    AllValidPowers(taken);
    TrapezoidBetween(taken, low, high);
    AllValidCoversSpan(taken);
  }
}
