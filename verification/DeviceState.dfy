/** The readings batch and the gap ranges of the simulated server's device state (simulator/server.py). */
module DeviceStates {
  import opened Bytes

  const MAX_BATCH_RECORDS: nat := 500

  /** One element of a batch: a JSON object with the sequence read from it (0 when none can be), or anything else. */
  datatype Item<R> = NotObject | Reading(sequence: int, record: R)

  datatype Problem = BatchInvalid | IdentityMismatch | ReadingNotObject | SequenceInvalid

  datatype Range = Range(first: int, last: int)

  datatype Response =
    | Refused(problem: Problem)
    | Answered(accepted: seq<int>, duplicates: seq<int>, rejected: seq<int>, highest: nat, missing: seq<Range>)

  datatype Kind = New | Duplicate | Conflict

  // ----- what a batch does -----------------------------------------------------------------------------

  function KindOf<R(==)>(records: map<int, R>, item: Item<R>): Kind
    requires item.Reading?
  {
    if item.sequence !in records then New
    else if records[item.sequence] == item.record then Duplicate
    else Conflict
  }

  predicate WellFormed<R>(item: Item<R>) { item.Reading? && item.sequence > 0 }

  predicate AllWellFormed<R>(items: seq<Item<R>>)
  {
    forall i :: 0 <= i < |items| ==> WellFormed(items[i])
  }

  /** The records after storing the items one by one: the first to come for a sequence stays. */
  function Stored<R>(records: map<int, R>, items: seq<Item<R>>): map<int, R>
    requires AllWellFormed(items)
  {
    if items == [] then records
    else
      var before, last := Stored(records, items[..|items| - 1]), items[|items| - 1];
      if last.sequence in before then before else before[last.sequence := last.record]
  }

  /** The sequences of the items that met the records so far in this way, in order. */
  function Sequences<R(==)>(records: map<int, R>, items: seq<Item<R>>, kind: Kind): seq<int>
    requires AllWellFormed(items)
  {
    if items == [] then []
    else
      var front, last := items[..|items| - 1], items[|items| - 1];
      Sequences(records, front, kind) + (if KindOf(Stored(records, front), last) == kind then [last.sequence] else [])
  }

  /** How many leading items are well-formed. */
  function GoodPrefix<R>(items: seq<Item<R>>): (n: nat)
    ensures n <= |items| && AllWellFormed(items[..n])
    ensures n < |items| ==> !WellFormed(items[n])
  {
    if items == [] || !WellFormed(items[0]) then 0 else 1 + GoodPrefix(items[1..])
  }

  /** A record is never changed or dropped, and an item's sequence is always stored afterwards. */
  lemma {:induction false} StoredKeeps<R>(records: map<int, R>, items: seq<Item<R>>)
    requires AllWellFormed(items)
    ensures forall k :: k in records ==> k in Stored(records, items) && Stored(records, items)[k] == records[k]
    ensures forall i :: 0 <= i < |items| ==> items[i].sequence in Stored(records, items)
    ensures forall k :: k in Stored(records, items) ==>
              k in records || exists i :: 0 <= i < |items| && items[i] == Reading(k, Stored(records, items)[k])
  {
    if items != [] {
      var front, last := items[..|items| - 1], items[|items| - 1];
      StoredKeeps(records, front);
      var before, after := Stored(records, front), Stored(records, items);
      forall k | k in after && k !in records
        ensures exists i :: 0 <= i < |items| && items[i] == Reading(k, after[k])
      {
        if k in before {
          var i :| 0 <= i < |front| && front[i] == Reading(k, before[k]);
          assert items[i] == front[i];
        } else {
          assert items[|items| - 1] == Reading(k, after[k]);
        }
      }
      forall i | 0 <= i < |items|
        ensures items[i].sequence in after
      {
        if i < |front| {
          assert front[i] == items[i];
        }
      }
    }
  }

  /** Every item is counted once: accepted, duplicate or rejected. */
  lemma {:induction false} EveryItemAnswered<R>(records: map<int, R>, items: seq<Item<R>>)
    requires AllWellFormed(items)
    ensures |Sequences(records, items, New)| + |Sequences(records, items, Duplicate)|
            + |Sequences(records, items, Conflict)| == |items|
  {
    if items != [] {
      EveryItemAnswered(records, items[..|items| - 1]);
    }
  }

  /** The accepted sequences are exactly the ones the batch added, each once. */
  lemma {:induction false} AcceptedAreTheNew<R>(records: map<int, R>, items: seq<Item<R>>)
    requires AllWellFormed(items)
    ensures var accepted := Sequences(records, items, New);
            && (forall k :: k in accepted <==> k in Stored(records, items) && k !in records)
            && (forall i, j :: 0 <= i < j < |accepted| ==> accepted[i] != accepted[j])
  {
    if items != [] {
      var front := items[..|items| - 1];
      AcceptedAreTheNew(records, front);
      StoredKeeps(records, front);
    }
  }

  /** The rejected sequences are those of the items that differ from what is stored for them in the end. */
  lemma {:induction false} RejectedDiffer<R>(records: map<int, R>, items: seq<Item<R>>)
    requires AllWellFormed(items)
    ensures forall k :: k in Sequences(records, items, Conflict) <==>
              exists i :: 0 <= i < |items| && items[i].sequence == k
                          && k in Stored(records, items) && items[i].record != Stored(records, items)[k]
  {
    if items != [] {
      var front, last := items[..|items| - 1], items[|items| - 1];
      RejectedDiffer(records, front);
      StoredKeeps(records, front);
      StoredKeeps(Stored(records, front), [last]);
      assert [last][..0] == [];
      forall k
        ensures k in Sequences(records, items, Conflict) <==>
                  exists i :: 0 <= i < |items| && items[i].sequence == k
                              && k in Stored(records, items) && items[i].record != Stored(records, items)[k]
      {
        ConflictNext(records, items, k);
      }
    }
  }

  lemma ConflictNext<R>(records: map<int, R>, items: seq<Item<R>>, k: int)
    requires AllWellFormed(items) && items != []
    requires var front := items[..|items| - 1];
             k in Sequences(records, front, Conflict) <==>
               exists i :: 0 <= i < |front| && front[i].sequence == k
                           && k in Stored(records, front) && front[i].record != Stored(records, front)[k]
    ensures k in Sequences(records, items, Conflict) <==>
              exists i :: 0 <= i < |items| && items[i].sequence == k
                          && k in Stored(records, items) && items[i].record != Stored(records, items)[k]
  {
    var front, last := items[..|items| - 1], items[|items| - 1];
    StoredKeeps(records, front);
    var earlier, later := Stored(records, front), Stored(records, items);
    assert forall i :: 0 <= i < |front| ==> front[i] == items[i] && front[i].sequence in earlier;
    assert forall n :: n in earlier ==> n in later && later[n] == earlier[n];
    if last.sequence == k && k in earlier && last.record != earlier[k] {
      assert items[|items| - 1].sequence == k && items[|items| - 1].record != later[k];
    }
    if i :| 0 <= i < |front| && front[i].sequence == k && k in earlier && front[i].record != earlier[k] {
      assert items[i].sequence == k && items[i].record != later[k];
    }
  }

  /** Sending a batch again changes nothing and accepts nothing. */
  lemma {:induction false} ResendIsIdempotent<R>(records: map<int, R>, items: seq<Item<R>>, n: nat)
    requires AllWellFormed(items) && n <= |items|
    ensures Stored(Stored(records, items), items[..n]) == Stored(records, items)
    ensures Sequences(Stored(records, items), items[..n], New) == []
  {
    if n > 0 {
      var after := Stored(records, items);
      ResendIsIdempotent(records, items, n - 1);
      StoredKeeps(records, items);
      assert items[..n][..n - 1] == items[..n - 1];
      assert items[..n][n - 1] == items[n - 1];
    }
  }

  // ----- runs of batches -------------------------------------------------------------------------------

  datatype Device<R> = Device(acknowledged: nat, records: map<int, R>)

  datatype Batch<R> = Batch(items: seq<Item<R>>, identityMatches: bool)

  /** The batch gets past the checks of its size and identity, to its readings. */
  predicate Opened<R>(b: Batch<R>) { 0 < |b.items| <= MAX_BATCH_RECORDS && b.identityMatches }

  predicate IsAnswered<R>(b: Batch<R>) { Opened(b) && GoodPrefix(b.items) == |b.items| }

  /** A batch is answered when it names this device and holds 1 to 500 readings, all with a positive sequence. */
  lemma AnsweredIff<R>(b: Batch<R>)
    ensures IsAnswered(b) <==>
              && b.identityMatches && 1 <= |b.items| <= 500
              && forall i :: 0 <= i < |b.items| ==> b.items[i].Reading? && b.items[i].sequence >= 1
  {
    if GoodPrefix(b.items) == |b.items| {
      assert b.items[..|b.items|] == b.items;
    }
  }

  /** It is opened, and refused at a malformed element behind a reading of this sequence. */
  ghost predicate RefusedAfter<R>(b: Batch<R>, sequence: int)
  {
    && Opened(b) && GoodPrefix(b.items) < |b.items|
    && exists i :: 0 <= i < GoodPrefix(b.items) && b.items[i].sequence == sequence
  }

  function StoredBy<R>(records: map<int, R>, b: Batch<R>): map<int, R>
  {
    if Opened(b) then Stored(records, b.items[..GoodPrefix(b.items)]) else records
  }

  /** What a batch does to the device. */
  ghost predicate BatchLeaves<R>(s: Device<R>, t: Device<R>, b: Batch<R>)
  {
    && t.records == StoredBy(s.records, b)
    && (if IsAnswered(b) then s.acknowledged <= t.acknowledged && t.acknowledged + 1 !in t.records
        else t.acknowledged == s.acknowledged)
  }

  /** The next sequence to acknowledge is stored already. */
  predicate Lagging<R>(s: Device<R>) { s.acknowledged + 1 in s.records }

  /** A sequence newly stored by an unanswered batch is one that it was refused after. */
  lemma LagsAfterIff<R>(s: Device<R>, b: Batch<R>)
    requires !IsAnswered(b)
    ensures s.acknowledged + 1 in StoredBy(s.records, b) <==> Lagging(s) || RefusedAfter(b, s.acknowledged + 1)
  {
    if Opened(b) {
      StoredKeeps(s.records, b.items[..GoodPrefix(b.items)]);
    }
  }

  ghost predicate Run<R>(states: seq<Device<R>>, batches: seq<Batch<R>>)
  {
    && |states| == |batches| + 1 && states[0] == Device(0, map[])
    && forall i :: 0 <= i < |batches| ==> BatchLeaves(states[i], states[i + 1], batches[i])
  }

  /** A refused batch whose effect no answered one has made good since. */
  ghost predicate LagsSince<R>(batches: seq<Batch<R>>, i: nat, n: nat, sequence: int)
    requires n <= |batches|
  {
    && i < n && RefusedAfter(batches[i], sequence)
    && forall j :: i < j < n ==> !IsAnswered(batches[j])
  }

  /** Some batch lags, and has not been made good. */
  ghost predicate Unmended<R>(batches: seq<Batch<R>>, n: nat, sequence: int)
    requires n <= |batches|
  {
    exists i: nat :: LagsSince(batches, i, n, sequence)
  }

  /**
   * Over any run of batches from a fresh device, the acknowledged sequence is short of what is stored if and only
   * if a batch was refused after the next sequence, and none has been answered since.
   */
  lemma {:induction false} LagsIff<R>(states: seq<Device<R>>, batches: seq<Batch<R>>, n: nat)
    requires Run(states, batches) && n <= |batches|
    ensures Lagging(states[n]) <==> Unmended(batches, n, states[n].acknowledged + 1)
  {
    if n > 0 {
      var s, t, b := states[n - 1], states[n], batches[n - 1];
      assert BatchLeaves(s, states[n - 1 + 1], b);
      LagsIff(states, batches, n - 1);
      if !IsAnswered(b) {
        LagsAfterIff(s, b);
        var next := s.acknowledged + 1;
        UnmendedNext(batches, n - 1, next);
      }
    }
  }

  lemma UnmendedNext<R>(batches: seq<Batch<R>>, m: nat, sequence: int)
    requires m < |batches| && !IsAnswered(batches[m])
    ensures Unmended(batches, m + 1, sequence) <==>
              Unmended(batches, m, sequence) || RefusedAfter(batches[m], sequence)
  {
    var n := m + 1;
    hide RefusedAfter, IsAnswered;
    if RefusedAfter(batches[m], sequence) {
      assert LagsSince(batches, m, n, sequence);
    }
    if i: nat :| LagsSince(batches, i, m, sequence) {
      assert LagsSince(batches, i, n, sequence);
    }
    if i: nat :| LagsSince(batches, i, n, sequence) {
      assert i == m || LagsSince(batches, i, m, sequence);
    }
  }

  /** Over any run, records never change and the acknowledged sequence never decreases. */
  lemma {:induction false} RunKeepsRecords<R>(states: seq<Device<R>>, batches: seq<Batch<R>>, m: nat, n: nat)
    requires Run(states, batches) && m <= n <= |batches|
    ensures states[m].acknowledged <= states[n].acknowledged
    ensures forall k :: k in states[m].records ==>
              k in states[n].records && states[n].records[k] == states[m].records[k]
    decreases n
  {
    if m < n {
      RunKeepsRecords(states, batches, m, n - 1);
      var b := batches[n - 1];
      assert BatchLeaves(states[n - 1], states[n - 1 + 1], b);
      if Opened(b) {
        StoredKeeps(states[n - 1].records, b.items[..GoodPrefix(b.items)]);
      }
    }
  }

  // ----- gaps ----------------------------------------------------------------------------------------

  predicate Within(r: Range, n: int) { r.first <= n <= r.last }

  ghost predicate Covered(ranges: seq<Range>, n: int)
  {
    exists i :: 0 <= i < |ranges| && Within(ranges[i], n)
  }

  /** In order, none empty, and no two touching: these are the longest runs. */
  ghost predicate Separate(ranges: seq<Range>)
  {
    && (forall i :: 0 <= i < |ranges| ==> ranges[i].first <= ranges[i].last)
    && (forall i, j :: 0 <= i < j < |ranges| ==> ranges[i].last + 1 < ranges[j].first)
  }

  ghost predicate IsMaximum(numbers: set<int>, m: int)
  {
    m in numbers && forall k :: k in numbers ==> k <= m
  }

  lemma SomeMember(numbers: set<int>)
    ensures numbers == {} || exists k :: k in numbers
  {
    if forall k :: k !in numbers {
      assert numbers == {};
    }
  }

  class DeviceState<R(==)> {
    var acknowledged: nat
    var records: map<int, R>

    constructor ()
      ensures acknowledged == 0 && records == map[]
    {
      acknowledged := 0;
      records := map[];
    }

    function State(): Device<R>
      reads this
    {
      Device(acknowledged, records)
    }

    /** Every sequence from 1 to the acknowledged one is stored, and no sequence below 1 is. */
    ghost predicate Valid()
      reads this
    {
      && (forall k :: 1 <= k <= acknowledged ==> k in records)
      && (forall k :: k in records ==> k > 0)
    }

    method Maximum() returns (m: int)
      requires records != map[]
      ensures IsMaximum(records.Keys, m)
    {
      var rest := records.Keys;
      SomeMember(rest);
      m :| m in rest;
      rest := rest - {m};
      while rest != {}
        invariant rest < records.Keys && m in records
        invariant forall k :: k in records && k !in rest ==> k <= m
        decreases |rest|
      {
        SomeMember(rest);
        var k :| k in rest;
        m := if m < k then k else m;
        rest := rest - {k};
      }
    }

    /** The missing numbers between the acknowledged sequence and the greatest stored one, as maximal ranges. */
    method MissingRanges() returns (ranges: seq<Range>)
      requires Valid()
      ensures Separate(ranges)
      ensures forall n :: Covered(ranges, n) <==>
                acknowledged < n && n !in records && exists m :: IsMaximum(records.Keys, m) && n < m
    {
      if records == map[] {
        return [];
      }
      var maximum := Maximum();
      assert acknowledged > 0 ==> acknowledged in records;
      var start: int := acknowledged + 1;
      ranges := [];
      while start <= maximum
        invariant start > acknowledged
        invariant Separate(ranges) && start <= maximum + 1
        invariant ranges != [] ==> ranges[|ranges| - 1].last < start
        invariant ranges != [] && ranges[|ranges| - 1].last + 1 == start ==> start in records || start > maximum
        invariant forall n :: Covered(ranges, n) <==> acknowledged < n < start && n !in records
        decreases maximum + 1 - start
      {
        if start in records {
          start := start + 1;
          continue;
        }
        var end := start;
        while end + 1 <= maximum && end + 1 !in records
          invariant start <= end <= maximum
          invariant forall n :: start <= n <= end ==> n !in records
        {
          end := end + 1;
        }
        AddRange(ranges, Range(start, end));
        ranges := ranges + [Range(start, end)];
        start := end + 1;
      }
      assert forall n :: n !in records && n <= maximum ==> n < maximum;
    }

    lemma AddRange(ranges: seq<Range>, r: Range)
      ensures forall n :: Covered(ranges + [r], n) <==> Covered(ranges, n) || Within(r, n)
    {
      forall n
        ensures Covered(ranges + [r], n) <==> Covered(ranges, n) || Within(r, n)
      {
        if Covered(ranges, n) {
          var i :| 0 <= i < |ranges| && Within(ranges[i], n);
          assert (ranges + [r])[i] == ranges[i];
        }
        assert (ranges + [r])[|ranges|] == r;
      }
    }

    /**
     * The readings branch. What comes before a malformed element is stored even though the batch is refused;
     * the acknowledged sequence advances only when the whole batch is answered, and then as far as it can.
     */
    method ReadingsBatch(items: seq<Item<R>>, identityMatches: bool) returns (response: Response)
      requires Valid()
      modifies this
      ensures Valid() && acknowledged >= old(acknowledged)
      ensures var good := GoodPrefix(items);
              && (|items| == 0 || |items| > MAX_BATCH_RECORDS ==> response == Refused(BatchInvalid))
              && (0 < |items| <= MAX_BATCH_RECORDS && !identityMatches ==> response == Refused(IdentityMismatch))
              && (0 < |items| <= MAX_BATCH_RECORDS && identityMatches ==>
                    && records == Stored(old(records), items[..good])
                    && (response.Answered? <==> good == |items|)
                    && (good < |items| ==>
                          response == Refused(if items[good].NotObject? then ReadingNotObject else SequenceInvalid)))
      ensures response.Refused? ==> acknowledged == old(acknowledged)
      ensures response in {Refused(BatchInvalid), Refused(IdentityMismatch)} ==> records == old(records)
      ensures response.Answered? ==>
                && AllWellFormed(items)
                && response.accepted == Sequences(old(records), items, New)
                && response.duplicates == Sequences(old(records), items, Duplicate)
                && response.rejected == Sequences(old(records), items, Conflict)
                && response.highest == acknowledged && acknowledged + 1 !in records
                && Separate(response.missing)
                && forall n :: Covered(response.missing, n) <==>
                     acknowledged < n && n !in records && exists m :: IsMaximum(records.Keys, m) && n < m
      ensures BatchLeaves(old(State()), State(), Batch(items, identityMatches))
      // the acknowledgement falls behind what is stored exactly when the batch is refused after the next reading
      ensures old(acknowledged + 1 !in records) ==>
                (acknowledged + 1 in records <==>
                   RefusedAfter(Batch(items, identityMatches), old(acknowledged) + 1))
    {
      if |items| == 0 || |items| > MAX_BATCH_RECORDS {
        return Refused(BatchInvalid);
      }
      if !identityMatches {
        return Refused(IdentityMismatch);
      }
      if GoodPrefix(items) < |items| {
        LagsAfterIff(State(), Batch(items, identityMatches));
      }
      var accepted, duplicates, rejected, problem := StoreReadings(items);
      if problem.Some? {
        return Refused(problem.value);
      }
      assert items[..GoodPrefix(items)] == items;
      AdvanceAcknowledgement();
      var missing := MissingRanges();
      response := Answered(accepted, duplicates, rejected, acknowledged, missing);
    }

    /** Stores the readings up to the first malformed element, and says what became of each. */
    method StoreReadings(items: seq<Item<R>>)
      returns (accepted: seq<int>, duplicates: seq<int>, rejected: seq<int>, problem: Option<Problem>)
      requires Valid()
      modifies this`records
      ensures Valid()
      ensures var good := GoodPrefix(items);
              && records == Stored(old(records), items[..good])
              && (problem.None? <==> good == |items|)
              && (good < |items| ==>
                    problem == Some(if items[good].NotObject? then ReadingNotObject else SequenceInvalid))
      ensures problem.None? ==>
                && AllWellFormed(items)
                && accepted == Sequences(old(records), items, New)
                && duplicates == Sequences(old(records), items, Duplicate)
                && rejected == Sequences(old(records), items, Conflict)
    {
      ghost var before := records;
      accepted, duplicates, rejected, problem := [], [], [], None;
      for k := 0 to |items|
        invariant AllWellFormed(items[..k]) && records == Stored(before, items[..k])
        invariant Valid()
        invariant accepted == Sequences(before, items[..k], New)
        invariant duplicates == Sequences(before, items[..k], Duplicate)
        invariant rejected == Sequences(before, items[..k], Conflict)
      {
        var item := items[k];
        if item.NotObject? || item.sequence <= 0 {
          GoodPrefixIs(items, k);
          problem := Some(if item.NotObject? then ReadingNotObject else SequenceInvalid);
          return;
        }
        assert items[..k + 1][..k] == items[..k] && items[..k + 1][k] == item;
        if item.sequence in records && records[item.sequence] != item.record {
          rejected := rejected + [item.sequence];
          continue;
        }
        if item.sequence in records {
          duplicates := duplicates + [item.sequence];
        } else {
          records := records[item.sequence := item.record];
          accepted := accepted + [item.sequence];
        }
      }
      assert items[..|items|] == items;
      GoodPrefixIs(items, |items|);
    }

    /**
     * The first batch of a device: its reading of sequence 1 is stored, the element behind it is malformed, and the
     * refusal leaves sequence 1 stored and unacknowledged.
     */
    method RefusedBatchLeavesGap(r: R) returns (response: Response)
      requires acknowledged == 0 && records == map[]
      modifies this
      ensures response == Refused(ReadingNotObject)
      ensures acknowledged == 0 && records == map[1 := r]
    {
      var items := [Reading(1, r), NotObject];
      GoodPrefixIs(items, 1);
      assert items[..1] == [Reading(1, r)] && items[..1][..0] == [];
      response := ReadingsBatch(items, true);
    }

    lemma {:induction false} GoodPrefixIs(items: seq<Item<R>>, k: nat)
      requires k <= |items| && AllWellFormed(items[..k]) && (k < |items| ==> !WellFormed(items[k]))
      ensures GoodPrefix(items) == k
    {
      if k > 0 {
        assert items[..k][0] == items[0];
        assert items[1..][..k - 1] == items[..k][1..];
        GoodPrefixIs(items[1..], k - 1);
      }
    }

    /** Past every sequence stored without a gap; there are finitely many, so this ends. */
    method AdvanceAcknowledgement()
      requires Valid()
      modifies this`acknowledged
      ensures Valid() && acknowledged >= old(acknowledged) && acknowledged + 1 !in records
    {
      ghost var ahead := set k | k in records && k > acknowledged;
      while acknowledged + 1 in records
        invariant Valid() && acknowledged >= old(acknowledged)
        invariant ahead == set k | k in records && k > acknowledged
        decreases |ahead|
      {
        acknowledged := acknowledged + 1;
        assert ahead == (set k | k in records && k > acknowledged) + {acknowledged};
        ahead := ahead - {acknowledged};
      }
    }
  }
}
