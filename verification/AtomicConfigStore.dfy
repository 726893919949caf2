/** The two-slot configuration store of src/config/AtomicConfigStore.cpp. */
module AtomicConfigStore {
  import opened Bytes
  import opened RecordCodec
  import opened BlobStores

  datatype SlotKeys = SlotKeys(slotA: Key, slotB: Key, active: Key)
  {
    predicate Distinct() { slotA != slotB && slotA != active && slotB != active }
    function Of(s: Slot): Key { if s.A? then slotA else slotB }
    function All(): set<Key> { {slotA, slotB, active} }
  }

  /** What the three keys of a store decode to. */
  datatype View = View(a: Option<Record>, b: Option<Record>, marker: Option<Marker>)
  {
    function At(s: Slot): Option<Record> { if s.A? then a else b }
    function With(s: Slot, r: Option<Record>): View { if s.A? then this.(a := r) else this.(b := r) }
  }

  datatype Active = Active(slot: Slot, record: Record)

  function RecordAt(blobs: Blobs, key: Key): Option<Record>
  {
    if key in blobs then RecordFrom(blobs[key]) else None
  }

  function MarkerAt(blobs: Blobs, key: Key): Option<Marker>
  {
    if key in blobs then MarkerFrom(blobs[key]) else None
  }

  function ViewOf(blobs: Blobs, keys: SlotKeys): View
  {
    View(RecordAt(blobs, keys.slotA), RecordAt(blobs, keys.slotB), MarkerAt(blobs, keys.active))
  }

  // ----- which record is active ------------------------------------------------------------

  predicate Marked(v: View)
  {
    && v.marker.Some?
    && v.At(v.marker.value.slot).Some?
    && v.At(v.marker.value.slot).value.generation == v.marker.value.generation
  }

  function NewestValid(v: View): Option<Slot>
  {
    if v.a.None? then (if v.b.Some? then Some(B) else None)
    else if v.b.None? then Some(A)
    else if v.a.value.generation >= v.b.value.generation then Some(A) else Some(B)
  }

  function ActiveSlot(v: View): (s: Option<Slot>)
    ensures s.Some? ==> v.At(s.value).Some?
  {
    if Marked(v) then Some(v.marker.value.slot) else NewestValid(v)
  }

  function ActiveOf(v: View): Option<Active>
  {
    match ActiveSlot(v)
    case None => None
    case Some(s) => Some(Active(s, v.At(s).value))
  }

  /**
   * Which record counts, said of the decoded slots: the one a marker names by slot and generation; when no marker does,
   * a valid one of the largest generation, in slot A on a tie; none when neither slot is valid.
   */
  ghost predicate Counts(v: View, active: Option<Active>, fallback: bool)
  {
    if exists m :: v.marker == Some(m) && v.At(m.slot).Some? && v.At(m.slot).value.generation == m.generation then
      var m := v.marker.value;
      active == Some(Active(m.slot, v.At(m.slot).value)) && !fallback
    else
      && (active.None? <==> v.a.None? && v.b.None?)
      && (active.Some? ==>
            && fallback && v.At(active.value.slot) == Some(active.value.record)
            && (forall s: Slot :: v.At(s).Some? ==> v.At(s).value.generation <= active.value.record.generation)
            && (v.a.Some? && v.a.value.generation == active.value.record.generation ==> active.value.slot.A?))
  }

  /** There is one such record. */
  lemma ActiveCounts(v: View)
    ensures Counts(v, ActiveOf(v), !Marked(v) && ActiveOf(v).Some?)
    ensures forall active, fallback :: Counts(v, active, fallback) ==> active == ActiveOf(v)
  {
    forall active, fallback | Counts(v, active, fallback)
      ensures active == ActiveOf(v)
    {
      if active.Some? && !Marked(v) {
        assert v.At(A).Some? ==> v.At(A).value.generation <= active.value.record.generation;
        assert v.At(B).Some? ==> v.At(B).value.generation <= active.value.record.generation;
      }
    }
  }

  function PreviousOf(v: View, expected: u64): Option<Active>
  {
    match ActiveOf(v)
    case None => None
    case Some(current) =>
      var other := v.At(current.slot.Other());
      if || current.record.generation != expected || other.None?
         || other.value.generation >= current.record.generation
      then None
      else Some(Active(current.slot.Other(), other.value))
  }

  function GenerationOf(r: Option<Record>): u64
  {
    if r.Some? then r.value.generation else 0
  }

  function LargestGeneration(v: View): u64
  {
    if GenerationOf(v.a) >= GenerationOf(v.b) then GenerationOf(v.a) else GenerationOf(v.b)
  }

  /** The slot a commit writes: the one that is not active. */
  function Target(v: View): Slot
  {
    match ActiveOf(v)
    case Some(current) => current.slot.Other()
    case None => A
  }

  predicate Committable(v: View, payload: seq<byte>)
  {
    0 < |payload| <= MAXIMUM_PAYLOAD_SIZE && LargestGeneration(v) + 1 < U64_LIMIT
  }

  function Fresh(v: View, payload: seq<byte>): Record
    requires Committable(v, payload)
  {
    Record(LargestGeneration(v) + 1, payload)
  }

  // ----- what an operation can leave behind --------------------------------------------------

  ghost predicate CommitLeaves(v: View, w: View, payload: seq<byte>)
  {
    || w == v
    || (Committable(v, payload) &&
        var t, r := Target(v), Fresh(v, payload);
        && w.At(t.Other()) == v.At(t.Other())
        && (w.At(t).None? || w.At(t) == Some(r))
        && (w.marker == v.marker || w.marker.None? || w.marker == Some(Marker(t, r.generation))))
  }

  ghost predicate RollbackLeaves(v: View, w: View, expected: u64)
  {
    || w == v
    || (PreviousOf(v, expected).Some? &&
        var p := PreviousOf(v, expected).value;
        && w.a == v.a && w.b == v.b
        && (w.marker.None? || w.marker == Some(Marker(p.slot, p.record.generation))))
  }

  /** Nothing outside the three keys of the store moved. */
  ghost predicate OnlyKeys(before: Blobs, after: Blobs, keys: set<Key>)
  {
    forall k :: k !in keys ==> (k in before <==> k in after) && (k in before ==> before[k] == after[k])
  }

  /**
   * Whatever cut or failure interrupts a commit, the active record is the old one or the new one,
   * and an active record never disappears.
   */
  lemma CommitIsAtomic(v: View, w: View, payload: seq<byte>)
    requires CommitLeaves(v, w, payload)
    ensures || ActiveOf(w) == ActiveOf(v)
            || (Committable(v, payload) && ActiveOf(w) == Some(Active(Target(v), Fresh(v, payload))))
    ensures ActiveOf(v).Some? ==> ActiveOf(w).Some?
    ensures w.At(Target(v).Other()) == v.At(Target(v).Other())
    ensures w == v || w.At(Target(v)).None? || w.At(Target(v)) == Some(Fresh(v, payload))
  {
  }

  /** A slot keeps its record through a commit, loses it, or gets the new one. */
  lemma SlotsAfterCommit(v: View, w: View, payload: seq<byte>, s: Slot)
    requires CommitLeaves(v, w, payload)
    ensures || w.At(s) == v.At(s) || w.At(s).None?
            || (Committable(v, payload) && w.At(s) == Some(Fresh(v, payload)))
  {
    CommitIsAtomic(v, w, payload);
    assert s == Target(v) || s == Target(v).Other();
  }

  /** A rollback, complete or cut, leaves the current record or the one before it active. */
  lemma RollbackIsAtomic(v: View, w: View, expected: u64)
    requires RollbackLeaves(v, w, expected)
    ensures ActiveOf(w) == ActiveOf(v) || ActiveOf(w) == PreviousOf(v, expected)
    ensures ActiveOf(v).Some? ==> ActiveOf(w).Some?
    ensures w.a == v.a && w.b == v.b
  {
  }

  /** Behind the record a rollback made active there is nothing to roll back to. */
  lemma NothingBehindPrevious(v: View, w: View, expected: u64)
    requires RollbackLeaves(v, w, expected) && PreviousOf(v, expected).Some? && ActiveOf(w) == PreviousOf(v, expected)
    ensures PreviousOf(w, ActiveOf(w).value.record.generation).None?
  {
    RollbackIsAtomic(v, w, expected);
  }

  // ----- all runs from an empty store ----------------------------------------------------------

  datatype Op = CommitOp(payload: seq<byte>) | RollbackOp(expected: u64)

  ghost predicate OpLeaves(op: Op, v: View, w: View)
  {
    match op
    case CommitOp(payload) => CommitLeaves(v, w, payload)
    case RollbackOp(expected) => RollbackLeaves(v, w, expected)
  }

  /** `vs` are the contents before, between and after the operations `ops`, each cut or not. */
  ghost predicate Run(ops: seq<Op>, vs: seq<View>)
  {
    && |vs| == |ops| + 1
    && vs[0] == View(None, None, None)
    && forall i :: 0 <= i < |ops| ==> OpLeaves(ops[i], vs[i], vs[i + 1])
  }

  /** Slot `s` got record `r` at step `i` while `q`, in the other slot, was active, and has kept it up to `n`. */
  ghost predicate WrittenOver(ops: seq<Op>, vs: seq<View>, i: nat, n: nat, s: Slot, r: Record, q: Record)
    requires |vs| == |ops| + 1 && n < |vs|
  {
    && i < n
    && ops[i].CommitOp? && Committable(vs[i], ops[i].payload) && r == Fresh(vs[i], ops[i].payload)
    && ActiveOf(vs[i]) == Some(Active(s.Other(), q))
    && forall j :: i < j <= n ==> vs[j].At(s) == Some(r)
  }

  /** The history invariant of slot `s`: an older record beside it is the one it was written over. */
  ghost predicate Provenance(ops: seq<Op>, vs: seq<View>, n: nat, s: Slot)
    requires |vs| == |ops| + 1 && n < |vs|
  {
    var v := vs[n];
    v.At(s).Some? && v.At(s.Other()).Some?
    && v.At(s.Other()).value.generation < v.At(s).value.generation ==>
      exists i :: WrittenOver(ops, vs, i, n, s, v.At(s).value, v.At(s.Other()).value)
  }

  lemma {:induction false} RunHistory(ops: seq<Op>, vs: seq<View>, n: nat)
    requires Run(ops, vs) && n <= |ops|
    ensures vs[n].a.Some? && vs[n].b.Some? ==> vs[n].a.value.generation != vs[n].b.value.generation
    ensures forall s :: Provenance(ops, vs, n, s)
  {
    if n > 0 {
      RunHistory(ops, vs, n - 1);
      forall s
        ensures Provenance(ops, vs, n, s)
      {
        ProvenanceStep(ops, vs, n, s);
      }
      assert OpLeaves(ops[n - 1], vs[n - 1], vs[n]);
    }
  }

  lemma ProvenanceStep(ops: seq<Op>, vs: seq<View>, n: nat, s: Slot)
    requires Run(ops, vs) && 0 < n <= |ops|
    requires Provenance(ops, vs, n - 1, s)
    ensures Provenance(ops, vs, n, s)
  {
    var v, w := vs[n - 1], vs[n];
    assert OpLeaves(ops[n - 1], v, w);
    var o := s.Other();
    if w.At(s).Some? && w.At(o).Some? && w.At(o).value.generation < w.At(s).value.generation {
      if w.At(s) == v.At(s) && w.At(o) == v.At(o) {
        var i :| WrittenOver(ops, vs, i, n - 1, s, v.At(s).value, v.At(o).value);
        assert WrittenOver(ops, vs, i, n, s, w.At(s).value, w.At(o).value);
      } else {
        assert WrittenOver(ops, vs, n - 1, n, s, w.At(s).value, w.At(o).value);
      }
    }
  }

  /**
   * In every run of commits, failed commits, power cuts and rollbacks from an empty store, a rollback
   * that changes the active record activates exactly the record that was active when the current one
   * was written; its generation is smaller, so a newer slot that never became active is never promoted.
   */
  lemma RollbackRestoresPredecessor(ops: seq<Op>, vs: seq<View>, n: nat)
    requires Run(ops, vs) && n < |ops| && ops[n].RollbackOp?
    requires ActiveOf(vs[n + 1]) != ActiveOf(vs[n])
    ensures ActiveOf(vs[n]).Some? && ActiveOf(vs[n + 1]).Some?
    ensures var current, restored := ActiveOf(vs[n]).value, ActiveOf(vs[n + 1]).value;
            && restored.slot == current.slot.Other()
            && restored.record.generation < current.record.generation
            && exists i :: WrittenOver(ops, vs, i, n, current.slot, current.record, restored.record)
  {
    assert OpLeaves(ops[n], vs[n], vs[n + 1]);
    RollbackIsAtomic(vs[n], vs[n + 1], ops[n].expected);
    RunHistory(ops, vs, n);
    assert Provenance(ops, vs, n, ActiveOf(vs[n]).value.slot);
  }

  // ----- the code --------------------------------------------------------------------------

  datatype LoadResult = LoadResult(active: Active, recoveredFallback: bool)

  method ReadSlot(store: BlobStore, key: Key) returns (r: Option<Record>)
    ensures r == if store.on then RecordAt(store.blobs, key) else None
  {
    var encoded := store.Read(key);
    if encoded.None? {
      return None;
    }
    r := DecodeRecord(encoded.value);
  }

  method LoadActive(store: BlobStore, keys: SlotKeys) returns (result: Option<LoadResult>)
    ensures !store.on ==> result.None?
    ensures store.on ==>
              var v := ViewOf(store.blobs, keys);
              match ActiveOf(v)
              case None => result.None?
              case Some(active) => result == Some(LoadResult(active, !Marked(v)))
    ensures store.on ==>
              if result.Some? then Counts(ViewOf(store.blobs, keys), Some(result.value.active), result.value.recoveredFallback)
              else Counts(ViewOf(store.blobs, keys), None, false)
  {
    ActiveCounts(ViewOf(store.blobs, keys));
    var a := ReadSlot(store, keys.slotA);
    var b := ReadSlot(store, keys.slotB);
    var encodedMarker := store.Read(keys.active);
    var marker: Option<Marker> := None;
    if encodedMarker.Some? {
      marker := DecodeMarker(encodedMarker.value);
    }
    if marker.Some? {
      var marked := if marker.value.slot.A? then a else b;
      if marked.Some? && marked.value.generation == marker.value.generation {
        return Some(LoadResult(Active(marker.value.slot, marked.value), false));
      }
    }
    var newest := NewestValid(View(a, b, marker));
    if newest.None? {
      return None;
    }
    var record := if newest.value.A? then a.value else b.value;
    result := Some(LoadResult(Active(newest.value, record), true));
  }

  /** A write that counts only if it reads back identical. */
  method WriteVerified(store: BlobStore, key: Key, encoded: seq<byte>) returns (ok: bool)
    requires encoded != []
    modifies store
    ensures WriteLeaves(old(store.blobs), store.blobs, key, encoded, key in store.atomicKeys)
    ensures ok ==> store.on && store.blobs == old(store.blobs)[key := encoded]
    ensures store.on ==> old(store.on)
    ensures !old(store.on) ==> store.blobs == old(store.blobs)
    ensures old(store.script) == [] ==> store.script == []
    ensures old(store.on) && old(store.script) == [] ==> ok
    ensures old(store.on) && Begins(old(store.script), FINE) ==> ok && store.script == old(store.script)[1..]
    ensures old(store.on) && Begins(old(store.script), REFUSED) ==>
              !ok && store.on && store.script == old(store.script)[1..] && store.blobs == old(store.blobs)
  {
    var written := store.Write(key, encoded);
    if !written {
      return false;
    }
    var readback := store.Read(key);
    ok := readback == Some(encoded);
    if ok {
      assert store.blobs == old(store.blobs)[key := encoded];
    }
  }

  lemma WritingRecord(before: Blobs, after: Blobs, keys: SlotKeys, s: Slot, r: Record)
    requires keys.Distinct() && r.Legal()
    requires WriteLeaves(before, after, keys.Of(s), RecordBytes(r), false)
    ensures ViewOf(after, keys) == ViewOf(before, keys)
         || ViewOf(after, keys) == ViewOf(before, keys).With(s, None)
         || ViewOf(after, keys) == ViewOf(before, keys).With(s, Some(r))
    ensures after == before[keys.Of(s) := RecordBytes(r)] ==>
              ViewOf(after, keys) == ViewOf(before, keys).With(s, Some(r))
  {
    RecordRoundTrip(r);
  }

  lemma WritingMarker(before: Blobs, after: Blobs, keys: SlotKeys, m: Marker)
    requires keys.Distinct() && m.generation != 0
    requires WriteLeaves(before, after, keys.active, MarkerBytes(m), false)
    ensures var v, w := ViewOf(before, keys), ViewOf(after, keys);
            w == v || w == v.(marker := None) || w == v.(marker := Some(m))
    ensures after == before[keys.active := MarkerBytes(m)] ==>
              ViewOf(after, keys) == ViewOf(before, keys).(marker := Some(m))
  {
    MarkerRoundTrip(m);
  }

  lemma ErasingSlot(before: Blobs, after: Blobs, keys: SlotKeys, s: Slot)
    requires keys.Distinct()
    requires EraseLeaves(before, after, keys.Of(s), false)
    ensures ViewOf(after, keys) == ViewOf(before, keys)
         || ViewOf(after, keys) == ViewOf(before, keys).With(s, None)
    ensures after == before - {keys.Of(s)} ==> ViewOf(after, keys) == ViewOf(before, keys).With(s, None)
  {
  }

  /** Write the inactive slot, read it back and decode it; on any doubt, erase it. */
  method StoreRecord(store: BlobStore, keys: SlotKeys, target: Slot, r: Record) returns (ok: bool)
    requires keys.Distinct() && r.Legal()
    modifies store
    ensures var v, w := ViewOf(old(store.blobs), keys), ViewOf(store.blobs, keys);
            && (w == v || w == v.With(target, None) || w == v.With(target, Some(r)))
            && (ok ==> store.on && w == v.With(target, Some(r)))
            && (!ok && store.on && store.reliableErase ==> w == v.With(target, None))
    ensures OnlyKeys(old(store.blobs), store.blobs, keys.All())
    ensures store.on ==> old(store.on)
    ensures !old(store.on) ==> store.blobs == old(store.blobs)
    ensures old(store.on) && old(store.script) == [] ==> store.on && store.script == [] && ok
    ensures old(store.on) && Begins(old(store.script), FINE) ==> store.script == old(store.script)[1..] && ok
  {
    var key := keys.Of(target);
    var encoded := EncodeRecord(r.generation, r.payload);
    assert |encoded| >= RECORD_HEADER_SIZE;
    var written := WriteVerified(store, key, encoded);
    WritingRecord(old(store.blobs), store.blobs, keys, target, r);
    if !written {
      label undo:
      var _ := store.Erase(key);
      ErasingSlot(old@undo(store.blobs), store.blobs, keys, target);
      return false;
    }
    RecordRoundTrip(r);
    var readback := ReadSlot(store, key);
    if readback != Some(r) {
      // out of reach while reads are reliable: the bytes just compared equal
      assert false;
    }
    ok := true;
  }

  lemma MarkedIsActive(v: View, s: Slot, r: Record)
    requires v.At(s) == Some(r) && v.marker == Some(Marker(s, r.generation))
    ensures Marked(v) && ActiveOf(v) == Some(Active(s, r))
  {
  }

  /** Write the marker and check that it selects the new record; on any doubt, erase the record. */
  method ActivateRecord(store: BlobStore, keys: SlotKeys, target: Slot, r: Record)
    returns (ok: bool)
    requires keys.Distinct() && r.Legal()
    requires ViewOf(store.blobs, keys).At(target) == Some(r)
    requires store.on
    modifies store
    ensures var v, w := ViewOf(old(store.blobs), keys), ViewOf(store.blobs, keys);
            && (w.At(target) == Some(r) || w.At(target).None?) && w.At(target.Other()) == v.At(target.Other())
            && (|| w.marker == v.marker || w.marker.None?
                || w.marker == Some(Marker(target, r.generation)))
            && (ok ==> store.on && w == v.(marker := Some(Marker(target, r.generation))))
            && (!ok && store.on && store.reliableErase ==> w.At(target).None?)
    ensures OnlyKeys(old(store.blobs), store.blobs, keys.All())
    ensures old(store.script) == [] ==> store.on && store.script == [] && ok
    ensures Begins(old(store.script), FINE) ==> store.script == old(store.script)[1..] && ok
  {
    hide RecordFrom, MarkerFrom, MarkerBytes;
    var marker := EncodeMarker(target, r.generation);
    var marked := WriteVerified(store, keys.active, marker);
    WritingMarker(old(store.blobs), store.blobs, keys, Marker(target, r.generation));
    ghost var marking := store.blobs;
    if !marked {
      var _ := store.Erase(keys.Of(target));
      ErasingSlot(marking, store.blobs, keys, target);
      return false;
    }
    MarkedIsActive(ViewOf(store.blobs, keys), target, r);
    var verified := LoadActive(store, keys);
    if verified.None? || verified.value.active != Active(target, r) {
      // out of reach while reads are reliable: slot and marker were both just read back
      assert false;
    }
    ok := true;
  }

  method Commit(store: BlobStore, keys: SlotKeys, payload: seq<byte>) returns (result: Option<Active>)
    requires keys.Distinct()
    modifies store
    // every cut point and every failure
    ensures CommitLeaves(ViewOf(old(store.blobs), keys), ViewOf(store.blobs, keys), payload)
    ensures OnlyKeys(old(store.blobs), store.blobs, keys.All())
    ensures store.on ==> old(store.on)
    // true: the new record is durable, marked and active
    ensures result.Some? ==>
              var v, w := ViewOf(old(store.blobs), keys), ViewOf(store.blobs, keys);
              && store.on && Committable(v, payload)
              && result == Some(Active(Target(v), Fresh(v, payload)))
              && ActiveOf(w) == result && Marked(w)
    // false with an erase that works: the old record is still the active one
    ensures result.None? && store.on && store.reliableErase ==>
              ActiveOf(ViewOf(store.blobs, keys)) == ActiveOf(ViewOf(old(store.blobs), keys))
    // without faults it succeeds exactly on what can be stored
    ensures old(store.on) && old(store.script) == [] ==>
              store.script == [] && store.on
              && (result.Some? <==> Committable(ViewOf(old(store.blobs), keys), payload))
    ensures old(store.on) && Fine(old(store.script), 2) && Committable(ViewOf(old(store.blobs), keys), payload) ==>
              result.Some? && store.script == old(store.script)[2..]
  {
    ghost var v := ViewOf(store.blobs, keys);
    if payload == [] || |payload| > MAXIMUM_PAYLOAD_SIZE {
      return None;
    }
    var current := LoadActive(store, keys);
    var a := ReadSlot(store, keys.slotA);
    var b := ReadSlot(store, keys.slotB);
    var largest := if GenerationOf(a) >= GenerationOf(b) then GenerationOf(a) else GenerationOf(b);
    if largest == U64_LIMIT - 1 {
      return None;
    }
    var r := Record(largest + 1, payload);
    var target := if current.Some? then current.value.active.slot.Other() else A;
    assert store.on ==> target == Target(v) && r == Fresh(v, payload);
    var stored := StoreRecord(store, keys, target, r);
    ghost var v1 := ViewOf(store.blobs, keys);
    if !stored {
      if old(store.on) {
        CommitStopped(v, v1, payload);
      }
      return None;
    }
    var activated := ActivateRecord(store, keys, target, r);
    ghost var w := ViewOf(store.blobs, keys);
    CommitStopped(v, w, payload);
    if !activated {
      return None;
    }
    result := Some(Active(target, r));
  }

  /** Where a commit can stop, and what stays active when it stops without its new record. */
  lemma CommitStopped(v: View, w: View, payload: seq<byte>)
    requires Committable(v, payload)
    requires w.At(Target(v).Other()) == v.At(Target(v).Other())
    requires || w == v
             || (&& (w.At(Target(v)).None? || w.At(Target(v)) == Some(Fresh(v, payload)))
                 && (|| w.marker == v.marker || w.marker.None?
                     || w.marker == Some(Marker(Target(v), Fresh(v, payload).generation))))
    ensures CommitLeaves(v, w, payload)
    ensures w.At(Target(v)).None? ==> ActiveOf(w) == ActiveOf(v)
    ensures && w.At(Target(v)) == Some(Fresh(v, payload))
            && w.marker == Some(Marker(Target(v), Fresh(v, payload).generation)) ==>
              Marked(w) && ActiveOf(w) == Some(Active(Target(v), Fresh(v, payload)))
  {
  }

  method LoadPrevious(store: BlobStore, keys: SlotKeys, expected: u64) returns (result: Option<Active>)
    ensures result == if store.on then PreviousOf(ViewOf(store.blobs, keys), expected) else None
  {
    var current := LoadActive(store, keys);
    if current.None? || current.value.active.record.generation != expected {
      return None;
    }
    var otherSlot := current.value.active.slot.Other();
    var other := ReadSlot(store, keys.Of(otherSlot));
    if other.None? || other.value.generation >= current.value.active.record.generation {
      return None;
    }
    result := Some(Active(otherSlot, other.value));
  }

  lemma ActiveIsLegal(blobs: Blobs, keys: SlotKeys, s: Slot)
    ensures ViewOf(blobs, keys).At(s).Some? ==> ViewOf(blobs, keys).At(s).value.Legal()
  {
    if ViewOf(blobs, keys).At(s).Some? {
      RecordCanonical(blobs[keys.Of(s)]);
    }
  }

  method RollbackToPrevious(store: BlobStore, keys: SlotKeys, expected: u64)
    returns (result: Option<Active>)
    requires keys.Distinct()
    modifies store
    ensures RollbackLeaves(ViewOf(old(store.blobs), keys), ViewOf(store.blobs, keys), expected)
    ensures OnlyKeys(old(store.blobs), store.blobs, {keys.active})
    ensures store.on ==> old(store.on)
    ensures result.Some? ==>
              && store.on && result == PreviousOf(ViewOf(old(store.blobs), keys), expected)
              && ActiveOf(ViewOf(store.blobs, keys)) == result
    ensures old(store.on) && old(store.script) == [] ==>
              && store.on && store.script == []
              && (result.Some? <==> PreviousOf(ViewOf(old(store.blobs), keys), expected).Some?)
    ensures old(store.on) && Begins(old(store.script), FINE) ==>
              && (PreviousOf(ViewOf(old(store.blobs), keys), expected).Some? ==>
                    result.Some? && store.script == old(store.script)[1..])
  {
    var previous := LoadPrevious(store, keys, expected);
    if previous.None? {
      return None;
    }
    ActiveIsLegal(store.blobs, keys, previous.value.slot);
    var marker := EncodeMarker(previous.value.slot, previous.value.record.generation);
    var marked := WriteVerified(store, keys.active, marker);
    WritingMarker(old(store.blobs), store.blobs, keys, Marker(previous.value.slot, previous.value.record.generation));
    if !marked {
      return None;
    }
    var active := LoadActive(store, keys);
    if active.None? || active.value.active != previous.value {
      return None;
    }
    result := previous;
  }

  predicate AnyDataPresent(blobs: Blobs, keys: SlotKeys)
  {
    keys.slotA in blobs || keys.slotB in blobs || keys.active in blobs
  }
}
