/**
 * First-run provisioning as one transaction: commitProvisioning and its boot-time recovery in
 * src/config/ConfigService.cpp, on top of the atomic store and an undo journal.
 */
module Provisioning {
  import opened Bytes
  import opened RecordCodec
  import opened ProvisioningTransaction
  import opened BlobStores
  import opened AtomicConfigStore

  const CONFIG_SLOTS := SlotKeys(CfgA, CfgB, CfgActive)

  /** What getBytes sees: an absent preference reads as no bytes. */
  function Preference(blobs: Blobs, key: Key): seq<byte>
  {
    if key in blobs then blobs[key] else []
  }

  function ConfigView(blobs: Blobs): View
  {
    ViewOf(blobs, CONFIG_SLOTS)
  }

  predicate Credentials(blobs: Blobs, token: seq<byte>, salt: seq<byte>, hash: seq<byte>)
  {
    && Preference(blobs, EnrollTok) == token
    && Preference(blobs, AdminSalt) == salt
    && Preference(blobs, AdminHash) == hash
  }

  function Snapshot(blobs: Blobs, generation: u64): Journal
  {
    Journal(generation, Preference(blobs, EnrollTok), Preference(blobs, AdminSalt), Preference(blobs, AdminHash))
  }

  // ----- the three kinds of state a transaction can be in -------------------------------------

  /** The record `c` is still in its slot, and it or something newer is active. */
  ghost predicate ConfigKept(v: View, c: Active)
  {
    && v.At(c.slot) == Some(c.record)
    && ActiveOf(v).Some?
    && (ActiveOf(v) == Some(c) || ActiveOf(v).value.record.generation > c.record.generation)
  }

  /** Undecided: the journal still describes how to get back to `c` and the old credentials. */
  ghost predicate Protected(blobs: Blobs, c: Active, j: Journal)
  {
    && ProvisionTxn in blobs
    && JournalFrom(blobs[ProvisionTxn]) == Some(j)
    && j.previousGeneration == c.record.generation != 0
    && ConfigKept(ConfigView(blobs), c)
  }

  /** Rolled back: everything as the snapshot `j` and record `c` say, and no journal. */
  ghost predicate AllOld(blobs: Blobs, c: Active, j: Journal)
  {
    && ProvisionTxn !in blobs
    && ActiveOf(ConfigView(blobs)) == Some(c)
    && Credentials(blobs, j.token, j.salt, j.hash)
  }

  /** What one provisioning request, or the store, holds: configuration and credentials together. */
  datatype Bundle = Bundle(payload: seq<byte>, token: seq<byte>, salt: seq<byte>, hash: seq<byte>)

  /** Committed: the configuration and credentials of `q`, and no journal. */
  ghost predicate AllNew(blobs: Blobs, q: Bundle)
  {
    && ProvisionTxn !in blobs
    && ActiveOf(ConfigView(blobs)).Some?
    && ActiveOf(ConfigView(blobs)).value.record.payload == q.payload
    && Credentials(blobs, q.token, q.salt, q.hash)
  }

  /** A verifier that cannot be derived leaves no hash. */
  function Request(payload: seq<byte>, token: seq<byte>, salt: seq<byte>, hash: Option<seq<byte>>): Bundle
  {
    Bundle(payload, token, salt, if hash.Some? then hash.value else [])
  }

  ghost predicate Journalled(blobs: Blobs, j: Journal)
  {
    ProvisionTxn in blobs && JournalFrom(blobs[ProvisionTxn]) == Some(j)
  }

  /** No journal, or one that describes the configuration and credentials the store still holds. */
  predicate Clean(blobs: Blobs)
  {
    ProvisionTxn in blobs ==>
      var j, a := JournalFrom(blobs[ProvisionTxn]), ActiveOf(ConfigView(blobs));
      && j.Some? && a.Some? && a.value.record.generation == j.value.previousGeneration
      && Credentials(blobs, j.value.token, j.value.salt, j.value.hash)
  }

  /** The store, and the generation that the configuration service runs with, if it is up. */
  datatype Moment = Moment(blobs: Blobs, generation: Option<u64>)

  /** What can happen: an attempt, a boot that recovers and loads, and a loss of power. */
  datatype Turn =
    | Attempt(request: Bundle, ok: bool)
    | Boot(recovered: Blobs, completed: bool)
    | PowerCut

  /** The store is clean, and the running generation is the active one. */
  predicate Ready(blobs: Blobs, generation: u64)
  {
    && Clean(blobs)
    && ActiveOf(ConfigView(blobs)).Some? && ActiveOf(ConfigView(blobs)).value.record.generation == generation
  }

  lemma SameConfig(before: Blobs, after: Blobs, keys: set<Key>)
    requires OnlyKeys(before, after, keys) && keys !! CONFIG_SLOTS.All()
    ensures ConfigView(after) == ConfigView(before)
  {
    assert CONFIG_SLOTS.slotA in CONFIG_SLOTS.All();
    assert CONFIG_SLOTS.slotB in CONFIG_SLOTS.All();
    assert CONFIG_SLOTS.active in CONFIG_SLOTS.All();
  }

  lemma KeptThroughCommit(v: View, w: View, c: Active, payload: seq<byte>)
    requires ActiveOf(v) == Some(c) && CommitLeaves(v, w, payload)
    ensures ConfigKept(w, c)
  {
    CommitIsAtomic(v, w, payload);
  }

  lemma KeptThroughRollback(v: View, w: View, c: Active, expected: u64)
    requires ConfigKept(v, c) && ActiveOf(v) != Some(c) && RollbackLeaves(v, w, expected)
    ensures ConfigKept(w, c)
    ensures PreviousOf(v, expected).Some? ==> PreviousOf(v, expected) == Some(c)
  {
    RollbackIsAtomic(v, w, expected);
  }

  lemma ProtectedThroughRollback(before: Blobs, after: Blobs, c: Active, j: Journal, expected: u64)
    requires Protected(before, c, j) && OnlyKeys(before, after, {CfgActive})
    requires ActiveOf(ConfigView(before)) != Some(c)
    requires RollbackLeaves(ConfigView(before), ConfigView(after), expected)
    ensures Protected(after, c, j)
    ensures PreviousOf(ConfigView(before), expected).Some? ==> PreviousOf(ConfigView(before), expected) == Some(c)
    ensures ActiveOf(ConfigView(before)).value.record.generation == expected ==>
              PreviousOf(ConfigView(before), expected) == Some(c)
  {
    KeptThroughRollback(ConfigView(before), ConfigView(after), c, expected);
  }

  // ----- preferences -------------------------------------------------------------------------

  method WriteBytesChecked(store: BlobStore, key: Key, value: seq<byte>) returns (ok: bool)
    modifies store
    ensures WriteLeaves(old(store.blobs), store.blobs, key, value, key in store.atomicKeys)
    ensures OnlyKeys(old(store.blobs), store.blobs, {key})
    ensures ok ==> store.on && Preference(store.blobs, key) == value
    ensures store.on ==> old(store.on)
    ensures old(store.script) == [] ==> store.script == []
    ensures old(store.on) && old(store.script) == [] && value != [] ==> ok
    ensures old(store.on) && old(store.script) == [] ==> store.on
    ensures old(store.on) && Begins(old(store.script), FINE) && value != [] ==>
              ok && store.script == old(store.script)[1..] && store.blobs == old(store.blobs)[key := value]
    ensures old(store.on) && Begins(old(store.script), REFUSED) && value != [] ==>
              !ok && store.on && store.script == old(store.script)[1..] && store.blobs == old(store.blobs)
  {
    if value == [] {
      return false;
    }
    ok := WriteVerified(store, key, value);
  }

  method ErasePreferenceChecked(store: BlobStore, key: Key) returns (ok: bool)
    modifies store
    ensures EraseLeaves(old(store.blobs), store.blobs, key, key in store.atomicKeys)
    ensures OnlyKeys(old(store.blobs), store.blobs, {key})
    ensures ok ==> store.on && key !in store.blobs
    ensures store.on ==> old(store.on)
    ensures old(store.script) == [] ==> store.script == []
    ensures old(store.on) && old(store.script) == [] ==> ok
  {
    var present := store.KeyPresence(key);
    if present == Some(false) {
      return true;
    }
    var removed := store.Erase(key);
    present := store.KeyPresence(key);
    ok := removed && present == Some(false);
  }

  // ----- the service -------------------------------------------------------------------------

  class ConfigService {
    const store: BlobStore
    /** Whether a stored payload parses as a configuration (parsePersistentConfig). */
    const parses: seq<byte> -> bool
    /** Whether two payloads describe the same configuration (the comparison of verifyPersistentConfig). */
    const sameConfiguration: (seq<byte>, seq<byte>) -> bool
    var persistentGeneration: u64

    constructor (store: BlobStore, parses: seq<byte> -> bool,
                 sameConfiguration: (seq<byte>, seq<byte>) -> bool, generation: u64)
      ensures this.store == store && this.parses == parses && this.sameConfiguration == sameConfiguration
      ensures persistentGeneration == generation
    {
      this.store := store;
      this.parses := parses;
      this.sameConfiguration := sameConfiguration;
      persistentGeneration := generation;
    }

    /**
     * The journal operations are all-or-nothing in hardware, and a payload that describes the same configuration as
     * one that parses, parses too: both sides of the comparison are what the serialiser writes.
     */
    ghost predicate Valid()
    {
      && ProvisionTxn in store.atomicKeys
      && forall x, y :: sameConfiguration(x, y) && parses(x) ==> parses(y)
    }

    /** The running configuration is the active record `c`, and it parses. */
    ghost predicate Running(c: Active)
      reads this, store
    {
      && ActiveOf(ConfigView(store.blobs)) == Some(c)
      && c.record.generation == persistentGeneration
      && parses(c.record.payload)
    }

    /** The active payload parses, or the one before it does. */
    predicate Loadable(v: View)
    {
      && ActiveOf(v).Some?
      && (|| parses(ActiveOf(v).value.record.payload)
          || (var p := PreviousOf(v, ActiveOf(v).value.record.generation);
              p.Some? && parses(p.value.record.payload)))
    }

    /** Loading has nothing to move: the active payload parses, or there is no older record behind it. */
    predicate Settled(v: View)
    {
      ActiveOf(v).Some? ==>
        parses(ActiveOf(v).value.record.payload) || PreviousOf(v, ActiveOf(v).value.record.generation).None?
    }

    /** Loading moves at most the marker, and only past a payload that does not parse. */
    ghost predicate LoadLeaves(before: Blobs, after: Blobs)
    {
      && OnlyKeys(before, after, {CONFIG_SLOTS.active})
      && (Settled(ConfigView(before)) ==> after == before)
    }

    method LoadPersistentConfig() returns (loaded: Option<Active>)
      modifies store
      ensures LoadLeaves(old(store.blobs), store.blobs)
      ensures store.on ==> old(store.on)
      ensures var v := ConfigView(old(store.blobs));
              ActiveOf(v).Some? ==>
                RollbackLeaves(v, ConfigView(store.blobs), ActiveOf(v).value.record.generation)
      ensures loaded.Some? ==>
                store.on && ActiveOf(ConfigView(store.blobs)) == loaded && parses(loaded.value.record.payload)
      ensures var v := ConfigView(old(store.blobs));
              old(store.on) && ActiveOf(v).Some? && parses(ActiveOf(v).value.record.payload) ==>
                loaded == ActiveOf(v) && store.on && store.script == old(store.script)
      ensures old(store.on) && old(store.script) == [] ==>
                (loaded.Some? <==> Loadable(ConfigView(old(store.blobs))))
      ensures old(store.script) == [] ==> store.script == [] && store.on == old(store.on)
    {
      var active := LoadActive(store, CONFIG_SLOTS);
      if active.None? {
        return None;
      }
      var current := active.value.active;
      if parses(current.record.payload) {
        return Some(current);
      }
      var previous := LoadPrevious(store, CONFIG_SLOTS, current.record.generation);
      if previous.None? || !parses(previous.value.record.payload) {
        return None;
      }
      var activated := RollbackToPrevious(store, CONFIG_SLOTS, current.record.generation);
      if activated != previous {
        return None;
      }
      loaded := activated;
    }

    method ClearProvisioningTransaction() returns (ok: bool)
      requires Valid()
      modifies store
      ensures store.blobs == old(store.blobs) || store.blobs == old(store.blobs) - {ProvisionTxn}
      ensures ok ==> store.on && store.blobs == old(store.blobs) - {ProvisionTxn}
      ensures store.on ==> old(store.on)
      ensures old(store.on) && old(store.script) == [] ==> ok && store.script == []
      ensures old(store.on) && Begins(old(store.script), REFUSED) && ProvisionTxn in old(store.blobs)
              && !store.reliableErase ==>
                !ok && store.on && store.script == old(store.script)[1..] && store.blobs == old(store.blobs)
    {
      var erased := store.Erase(ProvisionTxn);
      ok := erased && store.KeyPresence(ProvisionTxn) == Some(false);
    }

    method ReadSnapshot() returns (journal: Journal)
      ensures store.on ==> journal == Snapshot(store.blobs, persistentGeneration)
      ensures journal.previousGeneration == persistentGeneration
    {
      var token := store.Read(EnrollTok);
      var salt := store.Read(AdminSalt);
      var hash := store.Read(AdminHash);
      journal := Journal(persistentGeneration, Contents(token), Contents(salt), Contents(hash));
    }

    method PrepareProvisioningTransaction() returns (ok: bool)
      requires Valid()
      modifies store
      ensures var j := Snapshot(old(store.blobs), persistentGeneration);
              && (|| store.blobs == old(store.blobs)
                  || store.blobs == old(store.blobs) - {ProvisionTxn}
                  || (j.Encodable() && store.blobs == old(store.blobs)[ProvisionTxn := JournalBytes(j)]))
              && (ok ==> store.on && j.Encodable() && store.blobs == old(store.blobs)[ProvisionTxn := JournalBytes(j)])
              && (!j.Encodable() ==> store.blobs == old(store.blobs))
              && (old(store.on) && Begins(old(store.script), REFUSED) && Begins(old(store.script)[1..], FINE)
                  && j.Encodable() ==>
                    && !ok && store.on && store.script == old(store.script)[2..]
                    && store.blobs == old(store.blobs) - {ProvisionTxn})
              && (old(store.on) && old(store.script) == [] ==>
                    store.on && store.script == [] && (ok <==> j.Encodable()))
              && (old(store.on) && Begins(old(store.script), FINE) && j.Encodable() ==>
                    ok && store.script == old(store.script)[1..])
      ensures store.on ==> old(store.on)
    {
      hide JournalBytes, JournalFrom;
      if persistentGeneration == 0 {
        return false;
      }
      var journal := ReadSnapshot();
      var encoded := Encode(journal);
      if encoded == [] {
        return false;
      }
      var written := store.Write(ProvisionTxn, encoded);
      if !written {
        var _ := store.Erase(ProvisionTxn);
        return false;
      }
      JournalRoundTrip(journal);
      var readback := store.Read(ProvisionTxn);
      var verified := if readback == Some(encoded) then JournalFrom(encoded) else None;
      if verified != Some(journal) {
        var _ := store.Erase(ProvisionTxn);
        return false;
      }
      ok := true;
    }

    static function Contents(read: Option<seq<byte>>): seq<byte>
    {
      if read.Some? then read.value else []
    }

    /** The configuration is still the one the journal names, so recovery has only the credentials to restore. */
    ghost predicate Unmoved(blobs: Blobs, journal: Journal)
    {
      && Current(blobs, journal.previousGeneration) && journal.previousGeneration != 0
    }

    /** Put the three snapshots back, erasing those that were absent. */
    method RestoreCredentials(journal: Journal) returns (ok: bool)
      modifies store
      ensures OnlyKeys(old(store.blobs), store.blobs, {EnrollTok, AdminSalt, AdminHash})
      ensures ok ==> store.on && Credentials(store.blobs, journal.token, journal.salt, journal.hash)
      ensures store.on ==> old(store.on)
      ensures old(store.script) == [] ==> store.script == []
      ensures old(store.on) && old(store.script) == [] ==> ok
      ensures old(store.on) && Begins(old(store.script), REFUSED) && journal.token != [] ==>
                !ok && store.on && store.script == old(store.script)[1..] && store.blobs == old(store.blobs)
      ensures old(store.on) && Fine(old(store.script), 3) && journal.Full() ==>
                ok && store.script == old(store.script)[3..]
    {
      var snapshots := [(EnrollTok, journal.token), (AdminSalt, journal.salt), (AdminHash, journal.hash)];
      for k := 0 to 3
        invariant OnlyKeys(old(store.blobs), store.blobs, {EnrollTok, AdminSalt, AdminHash})
        invariant forall i :: 0 <= i < k ==> Preference(store.blobs, snapshots[i].0) == snapshots[i].1
        invariant k > 0 ==> store.on
        invariant store.on ==> old(store.on)
        invariant old(store.script) == [] ==> store.script == []
        invariant old(store.on) && old(store.script) == [] ==> store.on
        invariant k == 0 ==> store.on == old(store.on) && store.script == old(store.script) && store.blobs == old(store.blobs)
        invariant k > 0 ==> !(old(store.on) && Begins(old(store.script), REFUSED) && journal.token != [])
        invariant old(store.on) && Fine(old(store.script), 3) && journal.Full() ==>
                    store.on && store.script == old(store.script)[k..]
      {
        var restored;
        if snapshots[k].1 == [] {
          restored := ErasePreferenceChecked(store, snapshots[k].0);
        } else {
          restored := WriteBytesChecked(store, snapshots[k].0, snapshots[k].1);
        }
        if !restored {
          return false;
        }
      }
      assert Preference(store.blobs, snapshots[0].0) == snapshots[0].1;
      assert Preference(store.blobs, snapshots[1].0) == snapshots[1].1;
      assert Preference(store.blobs, snapshots[2].0) == snapshots[2].1;
      ok := true;
    }

    /** What a completed recovery of the journal `j` leaves, whatever else is in the store. */
    ghost predicate Restored(blobs: Blobs, j: Journal)
    {
      var v := ConfigView(blobs);
      && ProvisionTxn !in blobs && Credentials(blobs, j.token, j.salt, j.hash)
      && ActiveOf(v).Some? && ActiveOf(v).value.record.generation == j.previousGeneration && Settled(v)
    }

    /** The journal names a generation newer than the active one: recovery refuses. */
    ghost predicate Conflicted(blobs: Blobs)
    {
      && ProvisionTxn in blobs && ActiveOf(ConfigView(blobs)).Some?
      && var j, a := JournalFrom(blobs[ProvisionTxn]), ActiveOf(ConfigView(blobs)).value;
         j.Some? && parses(a.record.payload) && a.record.generation < j.value.previousGeneration
    }

    /** Everything one recovery, cut or not, can do to the store. */
    ghost predicate RecoveryLeaves(before: Blobs, after: Blobs, completed: bool)
    {
      && (ProvisionTxn !in before ==> after == before)
      && (forall c: Active, j: Journal :: Protected(before, c, j) && parses(c.record.payload) ==>
            && (Protected(after, c, j) || AllOld(after, c, j))
            && (completed ==> AllOld(after, c, j)))
      && JournalLeaves(before, after, completed)
    }

    /** The part of it that holds of every journal, restorable or not. */
    ghost predicate JournalLeaves(before: Blobs, after: Blobs, completed: bool)
    {
      && (completed ==> ProvisionTxn !in after)
      && (forall j: Journal :: Journalled(before, j) ==> Journalled(after, j) || Restored(after, j))
      && (Conflicted(before) || (ProvisionTxn in before && JournalFrom(before[ProvisionTxn]).None?) ==>
            after == before && !completed)
    }

    method RecoverIncompleteProvisioning() returns (ok: bool)
      requires Valid()
      modifies store
      ensures RecoveryLeaves(old(store.blobs), store.blobs, ok)
      ensures ok ==> store.on
      ensures store.on ==> old(store.on)
      // without further faults a protected state always recovers
      ensures old(store.on) && old(store.script) == [] ==>
                && (ProvisionTxn !in old(store.blobs) ==> ok)
                && (forall c: Active, j: Journal ::
                      Protected(old(store.blobs), c, j) && parses(c.record.payload) ==> ok)
      ensures old(store.on) && ProvisionTxn !in old(store.blobs) ==>
                ok && store.blobs == old(store.blobs) && store.script == old(store.script)
      // the journal's own erase refused, after all else is restored
      ensures forall c: Active, j: Journal ::
                old(store.on) && Overtaken(old(store.blobs), c, j) && Stopped(old(store.script), 4) && j.Full() ==>
                  Reinstated(c, j)
      // a restoring write that is refused stops it where it stands
      ensures forall j: Journal :: Journalled(old(store.blobs), j) && Unmoved(old(store.blobs), j) && j.token != []
                                   && old(store.on) && Begins(old(store.script), REFUSED) ==>
                !ok && store.on && store.script == old(store.script)[1..] && store.blobs == old(store.blobs)
    {
      var present := store.KeyPresence(ProvisionTxn);
      if present.None? {
        return false;
      }
      if present == Some(false) {
        return true;
      }
      var encoded := store.Read(ProvisionTxn);
      if encoded.None? {
        return false;
      }
      var decoded := Decode(encoded.value);
      if decoded.None? {
        return false;
      }
      var journal := decoded.value;
      ok := RecoverFrom(journal);
    }

    /** The protected record is still there, and a newer one that parses is active. */
    ghost predicate Overtaken(blobs: Blobs, c: Active, j: Journal)
    {
      && Protected(blobs, c, j) && parses(c.record.payload)
      && ActiveOf(ConfigView(blobs)) != Some(c) && parses(ActiveOf(ConfigView(blobs)).value.record.payload)
    }

    /** `n` operations succeed, and then an erase is refused. */
    ghost predicate Stopped(script: seq<Outcome>, n: nat)
    {
      Fine(script, n) && script[n..] == [REFUSED] && !store.reliableErase
    }

    /** The journal and the new token are written, and the token is not restored. */
    ghost predicate RestoreRefused(script: seq<Outcome>)
    {
      Fine(script, 2) && script[2..] == [REFUSED]
    }

    /** The attempt succeeds up to its erase of the journal, and its recovery does as well. */
    ghost predicate ErasesRefused(script: seq<Outcome>)
    {
      Fine(script, 6) && Begins(script[6..], REFUSED) && Stopped(script[7..], 4)
    }

    /** Everything is as the journal says, the journal is still there, and nothing more is to go wrong. */
    ghost predicate Reinstated(c: Active, j: Journal)
      reads store
    {
      && store.on && store.script == []
      && Protected(store.blobs, c, j) && ActiveOf(ConfigView(store.blobs)) == Some(c)
      && Credentials(store.blobs, j.token, j.salt, j.hash)
    }

    /** Recovery once the journal has decoded. */
    method RecoverFrom(journal: Journal) returns (ok: bool)
      requires Valid() && store.on
      requires ProvisionTxn in store.blobs && JournalFrom(store.blobs[ProvisionTxn]) == Some(journal)
      modifies store
      ensures forall c: Active :: Protected(old(store.blobs), c, journal) && parses(c.record.payload) ==>
                && (Protected(store.blobs, c, journal) || AllOld(store.blobs, c, journal))
                && (ok ==> AllOld(store.blobs, c, journal))
                && (old(store.script) == [] ==> ok)
      ensures ok ==> store.on
      ensures JournalLeaves(old(store.blobs), store.blobs, ok)
      ensures forall c: Active ::
                Overtaken(old(store.blobs), c, journal) && Stopped(old(store.script), 4) && journal.Full() ==>
                  Reinstated(c, journal)
      ensures Unmoved(old(store.blobs), journal) && Begins(old(store.script), REFUSED) && journal.token != [] ==>
                !ok && store.on && store.script == old(store.script)[1..] && store.blobs == old(store.blobs)
    {
      hide Conflicted, Restored, Overtaken, Unmoved, Reinstated, JournalLeaves, Settled, ViewOf, ActiveOf;
      ghost var start := store.blobs;
      var configured := RestoreConfig(journal);
      ghost var found := store.blobs;
      if !configured {
        JournalStays(start, found, journal, false);
        return false;
      }
      ok := RestoreAndClear(journal);
      JournalStays(start, store.blobs, journal, ok);
      forall c: Active | Overtaken(start, c, journal) && Stopped(old(store.script), 4) && journal.Full()
        ensures Reinstated(c, journal)
      {
        OvertakenIs(start, c, journal);
      }
    }

    lemma OvertakenIs(blobs: Blobs, c: Active, j: Journal)
      requires Overtaken(blobs, c, j)
      ensures Protected(blobs, c, j) && parses(c.record.payload) && !Unmoved(blobs, j)
    {
    }

    lemma JournalStays(start: Blobs, after: Blobs, journal: Journal, ok: bool)
      requires Journalled(start, journal)
      requires if ok then Restored(after, journal)
               else Restored(after, journal) || Journalled(after, journal) || OnlyKeys(start, after, {CONFIG_SLOTS.active})
      requires Conflicted(start) ==> after == start && !ok
      ensures JournalLeaves(start, after, ok)
    {
      if OnlyKeys(start, after, {CONFIG_SLOTS.active}) {
        assert ProvisionTxn != CONFIG_SLOTS.active;
        assert Journalled(after, journal);
      }
      hide Conflicted, OnlyKeys;
    }

    /** Restore the credentials to go with the configuration that is back, and drop the journal. */
    method RestoreAndClear(journal: Journal) returns (ok: bool)
      requires Valid() && store.on && Journalled(store.blobs, journal)
      requires ActiveOf(ConfigView(store.blobs)).Some? && Settled(ConfigView(store.blobs))
      requires ActiveOf(ConfigView(store.blobs)).value.record.generation == journal.previousGeneration
      modifies store
      ensures var c := ActiveOf(ConfigView(old(store.blobs))).value;
              Protected(old(store.blobs), c, journal) ==>
                && (Protected(store.blobs, c, journal) || AllOld(store.blobs, c, journal))
                && (ok ==> AllOld(store.blobs, c, journal))
                && (Stopped(old(store.script), 3) && journal.Full() ==> Reinstated(c, journal))
      ensures if ok then store.on && Restored(store.blobs, journal)
              else Restored(store.blobs, journal) || Journalled(store.blobs, journal)
      ensures old(store.script) == [] ==> ok
      ensures Begins(old(store.script), REFUSED) && journal.token != [] ==>
                !ok && store.on && store.script == old(store.script)[1..] && store.blobs == old(store.blobs)
    {
      hide ViewOf, ActiveOf, Settled, ConfigKept;
      ghost var start := store.blobs;
      ghost var c := ActiveOf(ConfigView(start)).value;
      var restored := RestoreCredentials(journal);
      ghost var restoredBlobs := store.blobs;
      SameConfig(start, restoredBlobs, {EnrollTok, AdminSalt, AdminHash});
      assert Journalled(restoredBlobs, journal);
      if !restored {
        return false;
      }
      ok := ClearProvisioningTransaction();
      if store.blobs == restoredBlobs - {ProvisionTxn} {
        SameConfig(restoredBlobs, store.blobs, {ProvisionTxn});
      }
    }

    /** Load the active configuration, which moves the marker only past a payload that does not parse. */
    method LoadForRecovery(journal: Journal) returns (active: Option<Active>)
      requires store.on
      modifies store
      ensures forall c: Active :: Protected(old(store.blobs), c, journal) && parses(c.record.payload) ==>
                && Protected(store.blobs, c, journal)
                && (old(store.script) == [] ==> active.Some?)
      ensures active.Some? ==>
                store.on && ActiveOf(ConfigView(store.blobs)) == active && parses(active.value.record.payload)
      ensures OnlyKeys(old(store.blobs), store.blobs, {CONFIG_SLOTS.active})
      ensures var a := ActiveOf(ConfigView(old(store.blobs)));
              a.Some? && parses(a.value.record.payload) ==>
                active == a && store.blobs == old(store.blobs) && store.script == old(store.script)
      ensures ProvisionTxn in old(store.blobs) ==>
                ProvisionTxn in store.blobs && store.blobs[ProvisionTxn] == old(store.blobs)[ProvisionTxn]
      ensures old(store.script) == [] ==> store.script == []
    {
      ghost var start := store.blobs;
      active := LoadPersistentConfig();
      forall c: Active | Protected(start, c, journal) && parses(c.record.payload)
        ensures Protected(store.blobs, c, journal) && Loadable(ConfigView(start))
      {
        if ActiveOf(ConfigView(start)) == Some(c) {
          assert store.blobs == start;
        } else {
          ProtectedThroughRollback(start, store.blobs, c, journal,
                                   ActiveOf(ConfigView(start)).value.record.generation);
        }
      }
    }

    /** Roll the configuration back to the generation the journal names, if it moved on. */
    method RestoreConfig(journal: Journal) returns (ok: bool)
      requires store.on
      requires ProvisionTxn in store.blobs && JournalFrom(store.blobs[ProvisionTxn]) == Some(journal)
      modifies store
      ensures forall c: Active :: Protected(old(store.blobs), c, journal) && parses(c.record.payload) ==>
                && Protected(store.blobs, c, journal)
                && (ok ==> ActiveOf(ConfigView(store.blobs)) == Some(c))
                && (old(store.script) == [] ==> ok)
      ensures ok ==> store.on
      ensures old(store.script) == [] ==> store.script == []
      ensures Unmoved(old(store.blobs), journal) ==>
                ok && store.blobs == old(store.blobs) && store.script == old(store.script)
      ensures OnlyKeys(old(store.blobs), store.blobs, {CONFIG_SLOTS.active})
      ensures ok ==>
                var v := ConfigView(store.blobs);
                && ActiveOf(v).Some? && ActiveOf(v).value.record.generation == journal.previousGeneration
                && Settled(v)
      ensures Conflicted(old(store.blobs)) ==> !ok && store.blobs == old(store.blobs)
      ensures forall c: Active :: Overtaken(old(store.blobs), c, journal) && Begins(old(store.script), FINE) ==>
                ok && store.script == old(store.script)[1..]
    {
      var active := LoadForRecovery(journal);
      if active.None? {
        return false;
      }
      ghost var loaded := store.blobs;
      var activeGeneration := active.value.record.generation;
      var action := RecoveryActionFor(journal.previousGeneration, activeGeneration);
      if action.Conflict? {
        return false;
      }
      if action.RollbackConfigAndRestoreCredentials? {
        var restored := RollbackToPrevious(store, CONFIG_SLOTS, activeGeneration);
        forall c: Active | Protected(loaded, c, journal)
          ensures Protected(store.blobs, c, journal)
          ensures restored.Some? ==> restored == Some(c)
          ensures old(store.script) == [] ==> restored == Some(c)
        {
          ProtectedThroughRollback(loaded, store.blobs, c, journal, activeGeneration);
        }
        if restored.None? || restored.value.record.generation != journal.previousGeneration {
          return false;
        }
        NothingBehindPrevious(ConfigView(loaded), ConfigView(store.blobs), activeGeneration);
      }
      ok := true;
    }

    /** The running generation is the active one, and its payload parses. */
    ghost predicate Current(blobs: Blobs, generation: u64)
    {
      && ActiveOf(ConfigView(blobs)).Some?
      && ActiveOf(ConfigView(blobs)).value.record.generation == generation
      && parses(ActiveOf(ConfigView(blobs)).value.record.payload)
    }

    /** The attempt stopped before its own journal `j` was in place. */
    ghost predicate NotBegun(before: Blobs, after: Blobs, j: Journal)
    {
      // a journal that was there is recovered
      || (ProvisionTxn in before && RecoveryLeaves(before, after, false))
      // there was none, or overwriting it failed and it was erased
      || ((j.Encodable() || ProvisionTxn !in before) && LoadLeaves(before - {ProvisionTxn}, after))
    }

    /** The attempt's own journal is in place, or has been recovered. */
    ghost predicate Begun(before: Blobs, after: Blobs, generation: u64)
    {
      var j := Snapshot(before, generation);
      && j.Encodable() && (Journalled(after, j) || Restored(after, j))
      && (Current(before, generation) ==>
            var c := ActiveOf(ConfigView(before)).value;
            Protected(after, c, j) || AllOld(after, c, j))
    }

    /** What a provisioning attempt, cut or not, recovered or not, can leave behind, whatever generation is running. */
    ghost predicate AttemptLeaves(before: Blobs, after: Blobs, generation: u64, q: Bundle)
    {
      || NotBegun(before, after, Snapshot(before, generation))
      || Begun(before, after, generation)
      || (Snapshot(before, generation).Encodable() && AllNew(after, q) && parses(q.payload))
    }

    /** A failed attempt before recovery: its own journal is there, or it has not begun. */
    ghost predicate Undecided(before: Blobs, after: Blobs, generation: u64)
    {
      var j := Snapshot(before, generation);
      if j.Encodable() then
        && Journalled(after, j)
        && (Current(before, generation) ==> Protected(after, ActiveOf(ConfigView(before)).value, j))
      else
        after == before
    }

    /** The store holds the record `c` and the credentials of `j`, or its journal is `j` and leads back to them. */
    ghost predicate Held(blobs: Blobs, c: Active, j: Journal)
    {
      && parses(c.record.payload) && j.previousGeneration == c.record.generation != 0
      && (Protected(blobs, c, j) || AllOld(blobs, c, j))
    }

    /**
     * A failed attempt after recovery without faults. When its snapshot encodes, that is what is back, or what is
     * still journalled when the running generation was not the active one; else what was held before is back.
     */
    ghost predicate Undone(before: Blobs, after: Blobs, generation: u64)
    {
      var k := Snapshot(before, generation);
      if k.Encodable() then
        && (Current(before, generation) ==> AllOld(after, ActiveOf(ConfigView(before)).value, k))
        && (Journalled(after, k) || Restored(after, k))
      else
        forall c: Active, j: Journal :: Held(before, c, j) ==> AllOld(after, c, j)
    }

    /** The journal is written and the new token, and nothing after that. */
    function HalfWritten(before: Blobs, generation: u64, token: seq<byte>): Blobs
    {
      before[ProvisionTxn := JournalBytes(Snapshot(before, generation))][EnrollTok := token]
    }

    lemma BesideConfig(before: Blobs, journal: seq<byte>, token: seq<byte>)
      ensures ConfigView(before[ProvisionTxn := journal][EnrollTok := token]) == ConfigView(before)
    {
      SameConfig(before, before[ProvisionTxn := journal][EnrollTok := token], {ProvisionTxn, EnrollTok});
    }

    lemma HalfWrittenIsUnmoved(before: Blobs, generation: u64, token: seq<byte>)
      requires Snapshot(before, generation).Encodable()
      ensures Journalled(HalfWritten(before, generation, token), Snapshot(before, generation))
      ensures ConfigView(HalfWritten(before, generation, token)) == ConfigView(before)
      ensures Current(before, generation) ==>
                Unmoved(HalfWritten(before, generation, token), Snapshot(before, generation))
      ensures Stale(before, generation) ==> Conflicted(HalfWritten(before, generation, token))
    {
      var j := Snapshot(before, generation);
      assert j.previousGeneration == generation != 0;
      JournalRoundTrip(j);
      hide JournalBytes, JournalFrom, Snapshot, ConfigView, ActiveOf, Current, Unmoved, Stale, Conflicted;
      BesideConfig(before, JournalBytes(j), token);
      SameStanding(before, HalfWritten(before, generation, token), generation, j);
    }

    lemma SameStanding(before: Blobs, half: Blobs, generation: u64, j: Journal)
      requires ConfigView(half) == ConfigView(before) && Journalled(half, j) && j.previousGeneration == generation != 0
      ensures Current(before, generation) ==> Unmoved(half, j)
      ensures Stale(before, generation) ==> Conflicted(half)
    {
      hide ConfigView, ActiveOf;
    }

    /** The running generation is ahead of the active one, which parses. */
    ghost predicate Stale(blobs: Blobs, generation: u64)
    {
      && ActiveOf(ConfigView(blobs)).Some?
      && ActiveOf(ConfigView(blobs)).value.record.generation < generation
      && parses(ActiveOf(ConfigView(blobs)).value.record.payload)
    }

    /** Without faults a failed attempt is recovered and published, which undoes it. */
    lemma RecoveredUndoes(before: Blobs, failed: Blobs, settled: Blobs, published: Blobs, recovered: bool, generation: u64)
      requires Undecided(before, failed, generation)
      requires RecoveryLeaves(failed, settled, recovered)
      requires ProvisionTxn !in failed ==> recovered
      requires forall c: Active, j: Journal :: Protected(failed, c, j) && parses(c.record.payload) ==> recovered
      requires if recovered then LoadLeaves(settled, published) else published == settled
      ensures Undone(before, published, generation)
    {
      hide ViewOf, ActiveOf, ConfigKept, OnlyKeys, Conflicted;
      var k := Snapshot(before, generation);
      if !k.Encodable() {
        forall c: Active, j: Journal | Held(before, c, j)
          ensures AllOld(published, c, j)
        {
          assert AllOld(settled, c, j);
        }
      }
    }

    /** Write the new token, salt and hash, then commit and re-read the configuration. */
    method ApplyProvisioning(payload: seq<byte>, token: seq<byte>, salt: seq<byte>, hash: Option<seq<byte>>)
      returns (generation: Option<u64>)
      requires Valid()
      modifies store
      ensures store.on ==> old(store.on)
      ensures ProvisionTxn in old(store.blobs) ==>
                ProvisionTxn in store.blobs && store.blobs[ProvisionTxn] == old(store.blobs)[ProvisionTxn]
      ensures forall c: Active | ActiveOf(ConfigView(old(store.blobs))) == Some(c) && parses(c.record.payload) ::
                ConfigKept(ConfigView(store.blobs), c)
      ensures generation.Some? ==> store.on && hash.Some? && Credentials(store.blobs, token, salt, hash.value)
      ensures generation.Some? ==>
                parses(payload) && ActiveOf(ConfigView(store.blobs)).Some?
                && ActiveOf(ConfigView(store.blobs)).value.record == Record(generation.value, payload)
      ensures generation.Some? && ActiveOf(ConfigView(old(store.blobs))).Some? ==>
                generation.value > ActiveOf(ConfigView(old(store.blobs))).value.record.generation
      ensures (&& old(store.on) && (old(store.script) == [] || Fine(old(store.script), 5))
               && Sound(payload, token, salt, hash) && Committable(ConfigView(old(store.blobs)), payload)) ==>
                generation.Some? && store.script == After(old(store.script), 5)
      ensures old(store.on) && old(store.script) == [] ==> store.on && store.script == []
      ensures (&& old(store.on) && (old(store.script) == [] || Begins(old(store.script), FINE))
               && 32 <= |token| <= 256 && hash.None?) ==>
                && generation.None? && store.on && store.script == After(old(store.script), 1)
                && store.blobs == old(store.blobs)[EnrollTok := token]
    {
      hide Current, ConfigKept, CommitLeaves;
      var ok := WriteCredentials(token, salt, hash);
      SameConfig(old(store.blobs), store.blobs, {EnrollTok, AdminSalt, AdminHash});
      KeptWhileActive(ConfigView(store.blobs));
      if !ok {
        return None;
      }
      generation := CommitAndVerify(payload);
    }

    /** Every step of the attempt has something it can store, and what is stored reads back as asked. */
    predicate Sound(payload: seq<byte>, token: seq<byte>, salt: seq<byte>, hash: Option<seq<byte>>)
    {
      && parses(payload) && sameConfiguration(payload, payload)
      && 32 <= |token| <= 256 && salt != [] && hash.Some? && hash.value != []
    }

    lemma KeptWhileActive(v: View)
      ensures forall c: Active | ActiveOf(v) == Some(c) :: ConfigKept(v, c)
    {
    }

    /** setEnrollmentToken and persistAdminVerifier: the token, then the salt and the hash if it could be derived. */
    method WriteCredentials(token: seq<byte>, salt: seq<byte>, hash: Option<seq<byte>>) returns (ok: bool)
      modifies store
      ensures store.on ==> old(store.on)
      ensures OnlyKeys(old(store.blobs), store.blobs, {EnrollTok, AdminSalt, AdminHash})
      ensures ok ==> store.on && hash.Some? && Credentials(store.blobs, token, salt, hash.value)
      ensures old(store.on) && old(store.script) == [] ==> store.on && store.script == []
      ensures (&& old(store.on) && (old(store.script) == [] || Fine(old(store.script), 3)) && 32 <= |token| <= 256
               && salt != [] && hash.Some? && hash.value != []) ==>
                ok && store.script == After(old(store.script), 3)
      ensures (&& old(store.on) && (old(store.script) == [] || Begins(old(store.script), FINE))
               && 32 <= |token| <= 256 && hash.None?) ==>
                && !ok && store.on && store.script == After(old(store.script), 1)
                && store.blobs == old(store.blobs)[EnrollTok := token]
    {
      if !(32 <= |token| <= 256) {
        return false;
      }
      ok := WriteBytesChecked(store, EnrollTok, token);
      if !ok || hash.None? {
        return false;
      }
      ok := WriteBytesChecked(store, AdminSalt, salt);
      if !ok {
        return;
      }
      ok := WriteBytesChecked(store, AdminHash, hash.value);
    }

    method CommitAndVerify(payload: seq<byte>) returns (generation: Option<u64>)
      requires Valid()
      modifies store
      ensures store.on ==> old(store.on)
      ensures OnlyKeys(old(store.blobs), store.blobs, CONFIG_SLOTS.All())
      ensures forall c: Active | ActiveOf(ConfigView(old(store.blobs))) == Some(c) && parses(c.record.payload) ::
                ConfigKept(ConfigView(store.blobs), c)
      ensures generation.Some? ==> store.on
      ensures generation.Some? ==>
                parses(payload) && ActiveOf(ConfigView(store.blobs)).Some?
                && ActiveOf(ConfigView(store.blobs)).value.record == Record(generation.value, payload)
      ensures generation.Some? && ActiveOf(ConfigView(old(store.blobs))).Some? ==>
                generation.value > ActiveOf(ConfigView(old(store.blobs))).value.record.generation
      ensures (&& old(store.on) && (old(store.script) == [] || Fine(old(store.script), 2))
               && parses(payload) && sameConfiguration(payload, payload)
               && Committable(ConfigView(old(store.blobs)), payload)) ==>
                generation.Some? && store.script == After(old(store.script), 2)
      ensures old(store.on) && old(store.script) == [] ==> store.on && store.script == []
    {
      ghost var v := ConfigView(store.blobs);
      var committed := Commit(store, CONFIG_SLOTS, payload);
      forall c: Active | ActiveOf(v) == Some(c)
        ensures ConfigKept(ConfigView(store.blobs), c)
      {
        KeptThroughCommit(v, ConfigView(store.blobs), c, payload);
      }
      if committed.None? {
        return None;
      }
      ghost var written := ConfigView(store.blobs);
      var persisted := LoadPersistentConfig();
      forall c: Active | ActiveOf(v) == Some(c) && parses(c.record.payload)
        ensures ConfigKept(ConfigView(store.blobs), c)
      {
        if ActiveOf(written) != Some(c) && ConfigView(store.blobs) != written {
          KeptThroughRollback(written, ConfigView(store.blobs), c, ActiveOf(written).value.record.generation);
        }
      }
      if persisted.None? || !sameConfiguration(persisted.value.record.payload, payload) {
        return None;
      }
      generation := Some(committed.value.record.generation);
    }

    /**
     * commitProvisioning. `admissible` stands for the checks on the request, `payload` for the serialised
     * configuration, `hash` for the derived verifier (None when the derivation fails).
     */
    method CommitProvisioning(admissible: bool, payload: seq<byte>, token: seq<byte>, salt: seq<byte>,
                              hash: Option<seq<byte>>)
      returns (ok: bool)
      requires Valid()
      modifies this, store
      ensures AttemptLeaves(old(store.blobs), store.blobs, old(persistentGeneration), Request(payload, token, salt, hash))
      ensures ok ==>
                && store.on && hash.Some? && AllNew(store.blobs, Request(payload, token, salt, hash))
                && Running(ActiveOf(ConfigView(store.blobs)).value)
      ensures store.on ==> old(store.on)
      // without faults it succeeds on every request the checks let through
      ensures (&& old(store.on) && old(store.script) == [] && admissible && Sound(payload, token, salt, hash)
               && Snapshot(old(store.blobs), old(persistentGeneration)).Encodable()
               && Committable(ConfigView(old(store.blobs)), payload)) ==> ok
      // without faults a failed attempt is undone
      ensures old(store.on) && old(store.script) == [] && admissible && !ok ==>
                Undone(old(store.blobs), store.blobs, old(persistentGeneration))
      // and the service runs as before, with the generation that is active
      ensures (&& old(store.on) && old(store.script) == [] && admissible && !ok
               && Current(old(store.blobs), old(persistentGeneration))
               && Snapshot(old(store.blobs), old(persistentGeneration)).Encodable()) ==>
                persistentGeneration == old(persistentGeneration) && Ready(store.blobs, persistentGeneration)
      // a verifier that cannot be derived, and a restoring write that is refused
      ensures (&& old(store.on) && RestoreRefused(old(store.script)) && admissible
               && Current(old(store.blobs), old(persistentGeneration)) && 32 <= |token| <= 256 && hash.None?
               && Snapshot(old(store.blobs), old(persistentGeneration)).Encodable()
               && Snapshot(old(store.blobs), old(persistentGeneration)).token != []) ==>
                && !ok && store.on && store.script == [] && persistentGeneration == old(persistentGeneration)
                && store.blobs == HalfWritten(old(store.blobs), persistentGeneration, token)
      // the same request with a running generation ahead of the active one
      ensures (&& old(store.on) && old(store.script) == [] && admissible
               && Stale(old(store.blobs), old(persistentGeneration)) && 32 <= |token| <= 256 && hash.None?
               && Snapshot(old(store.blobs), old(persistentGeneration)).Encodable()) ==>
                && !ok && persistentGeneration == old(persistentGeneration)
                && store.blobs == HalfWritten(old(store.blobs), persistentGeneration, token)
      // the journal is refused and what was there erased
      ensures (&& old(store.on) && old(store.script) == [REFUSED, FINE] && admissible
               && Snapshot(old(store.blobs), old(persistentGeneration)).Encodable()) ==>
                !ok && LoadLeaves(old(store.blobs) - {ProvisionTxn}, store.blobs)
      // all succeeds but the erases of the journal, the attempt's own and its recovery's
      ensures (&& old(store.on) && ErasesRefused(old(store.script)) && admissible
               && Sound(payload, token, salt, hash) && Committable(ConfigView(old(store.blobs)), payload)
               && Current(old(store.blobs), old(persistentGeneration))
               && Snapshot(old(store.blobs), old(persistentGeneration)).Encodable()
               && Snapshot(old(store.blobs), old(persistentGeneration)).Full()) ==>
                && !ok && persistentGeneration > old(persistentGeneration)
                && Reinstated(ActiveOf(ConfigView(old(store.blobs))).value,
                              Snapshot(old(store.blobs), old(persistentGeneration)))
    {
      ghost var before, generation0 := store.blobs, persistentGeneration;
      ghost var q := Request(payload, token, salt, hash);
      if !admissible {
        NothingDone(before, generation0, q);
        return false;
      }
      hide RecoveryLeaves, AttemptLeaves, AllNew, Running, Undecided, Undone, HalfWritten, Unmoved, Journalled;
      hide Protected, Current, ViewOf, ActiveOf, Committable, JournalFrom, LoadLeaves, Stale, Conflicted, Overtaken,
           Reinstated, Sound, ErasesRefused, Stopped, RestoreRefused, Snapshot,
           ConfigView, Request;
      var applied := RunTransaction(payload, token, salt, hash);
      if applied {
        return true;
      }
      if Snapshot(before, generation0).Encodable() {
        HalfWrittenIsUnmoved(before, generation0, token);
      }
      UndoAttempt(before, generation0, q);
      UndoneIsReady(before, store.blobs, generation0);
      ok := false;
    }

    lemma UndoneIsReady(before: Blobs, after: Blobs, generation: u64)
      ensures (&& Undone(before, after, generation) && Current(before, generation)
               && Snapshot(before, generation).Encodable()) ==>
                Ready(after, generation)
    {
      hide ConfigView, ActiveOf, Journalled, Restored;
    }

    lemma NothingDone(before: Blobs, generation: u64, q: Bundle)
      ensures AttemptLeaves(before, before, generation, q)
    {
      if ProvisionTxn in before {
        assert RecoveryLeaves(before, before, false);
      } else {
        assert before - {ProvisionTxn} == before;
      }
    }

    /** Recover what a failed attempt left and, when that completes, load the configuration it settled on. */
    method UndoAttempt(ghost before: Blobs, ghost generation: u64, ghost q: Bundle)
      requires Valid()
      requires AttemptLeaves(before, store.blobs, generation, q)
      modifies this, store
      ensures AttemptLeaves(before, store.blobs, generation, q)
      ensures store.on ==> old(store.on)
      ensures old(store.on) && old(store.script) == [] && Undecided(before, old(store.blobs), generation) ==>
                Undone(before, store.blobs, generation)
      ensures (&& old(store.on) && old(store.script) == [] && Undecided(before, old(store.blobs), generation)
               && Current(before, generation) && Snapshot(before, generation).Encodable()) ==>
                persistentGeneration == generation
      ensures Conflicted(old(store.blobs)) ==>
                store.blobs == old(store.blobs) && persistentGeneration == old(persistentGeneration)
      ensures old(store.on) && ProvisionTxn !in old(store.blobs) ==> LoadLeaves(old(store.blobs), store.blobs)
      ensures var j := Snapshot(before, generation);
              Journalled(old(store.blobs), j) && Unmoved(old(store.blobs), j) && j.token != []
              && old(store.on) && Begins(old(store.script), REFUSED) ==>
                && store.on && store.script == old(store.script)[1..] && store.blobs == old(store.blobs)
                && persistentGeneration == old(persistentGeneration)
      ensures var a, j := ActiveOf(ConfigView(before)), Snapshot(before, generation);
              a.Some? && old(store.on) && Overtaken(old(store.blobs), a.value, j) && Stopped(old(store.script), 4)
              && j.Full() ==>
                Reinstated(a.value, j) && persistentGeneration == old(persistentGeneration)
    {
      hide RecoveryLeaves, AttemptLeaves, Undecided, Undone, Journalled, Unmoved, LoadLeaves, Overtaken, Conflicted;
      ghost var failed := store.blobs;
      var recovered := RecoverIncompleteProvisioning();
      ghost var settled := store.blobs;
      RecoveredAttempt(before, failed, settled, recovered, generation, q);
      RecoveryBasics(failed, settled, recovered);
      if Current(before, generation) && Snapshot(before, generation).Encodable() {
        UndecidedRecovers(before, failed, settled, recovered, generation);
      }
      if recovered {
        PublishRecoveredProvisioningState();
        PublishedAttempt(before, settled, store.blobs, generation, q);
      }
      if old(store.on) && old(store.script) == [] && Undecided(before, failed, generation) {
        RecoveredUndoes(before, failed, settled, store.blobs, recovered, generation);
      }
    }

    lemma UndecidedRecovers(before: Blobs, failed: Blobs, settled: Blobs, recovered: bool, generation: u64)
      requires RecoveryLeaves(failed, settled, recovered)
      requires Current(before, generation) && Snapshot(before, generation).Encodable()
      ensures Undecided(before, failed, generation) && recovered ==>
                ActiveOf(ConfigView(settled)) == ActiveOf(ConfigView(before))
      ensures Undecided(before, failed, generation) ==>
                Protected(failed, ActiveOf(ConfigView(before)).value, Snapshot(before, generation))
    {
      hide JournalLeaves, ConfigView, ActiveOf, JournalFrom, ConfigKept;
    }

    lemma RecoveryBasics(failed: Blobs, settled: Blobs, recovered: bool)
      requires RecoveryLeaves(failed, settled, recovered)
      ensures Conflicted(failed) ==> settled == failed && !recovered
      ensures recovered ==> ProvisionTxn !in settled
      ensures ProvisionTxn !in failed ==> settled == failed
      ensures forall b :: LoadLeaves(b, b)
      ensures forall c: Active, j: Journal :: ProvisionTxn !in settled ==> !Protected(settled, c, j)
    {
    }

    /** Journal, apply, publish, and erase the journal: the commit point. */
    method RunTransaction(payload: seq<byte>, token: seq<byte>, salt: seq<byte>, hash: Option<seq<byte>>)
      returns (applied: bool)
      requires Valid()
      modifies this, store
      ensures AttemptLeaves(old(store.blobs), store.blobs, old(persistentGeneration), Request(payload, token, salt, hash))
      ensures applied ==>
                && store.on && hash.Some? && AllNew(store.blobs, Request(payload, token, salt, hash))
                && Running(ActiveOf(ConfigView(store.blobs)).value)
      ensures store.on ==> old(store.on)
      ensures (&& old(store.on) && old(store.script) == [] && Sound(payload, token, salt, hash)
               && Snapshot(old(store.blobs), old(persistentGeneration)).Encodable()
               && Committable(ConfigView(old(store.blobs)), payload)) ==> applied
      ensures old(store.on) && old(store.script) == [] && !applied ==>
                && store.on && store.script == []
                && Undecided(old(store.blobs), store.blobs, old(persistentGeneration))
      ensures (&& old(store.on) && (old(store.script) == [] || RestoreRefused(old(store.script)))
               && 32 <= |token| <= 256 && hash.None?
               && Snapshot(old(store.blobs), old(persistentGeneration)).Encodable()) ==>
                && !applied && store.on && (RestoreRefused(old(store.script)) ==> store.script == [REFUSED])
                && persistentGeneration == old(persistentGeneration)
                && store.blobs == HalfWritten(old(store.blobs), persistentGeneration, token)
      ensures (&& old(store.on) && old(store.script) == [REFUSED, FINE]
               && Snapshot(old(store.blobs), old(persistentGeneration)).Encodable()) ==>
                !applied && store.on && store.blobs == old(store.blobs) - {ProvisionTxn}
      ensures (&& old(store.on) && ErasesRefused(old(store.script)) && Sound(payload, token, salt, hash)
               && Committable(ConfigView(old(store.blobs)), payload)
               && Current(old(store.blobs), old(persistentGeneration))
               && Snapshot(old(store.blobs), old(persistentGeneration)).Encodable()) ==>
                && !applied && store.on && Stopped(store.script, 4)
                && persistentGeneration > old(persistentGeneration)
                && Overtaken(store.blobs, ActiveOf(ConfigView(old(store.blobs))).value,
                             Snapshot(old(store.blobs), old(persistentGeneration)))
    {
      hide RecoveryLeaves, AttemptLeaves, ViewOf, ActiveOf, Committable, JournalFrom, JournalBytes, ConfigKept, Sound;
      ghost var before, generation0 := store.blobs, persistentGeneration;
      ghost var q := Request(payload, token, salt, hash);
      applied := PrepareProvisioningTransaction();
      ghost var prepared := store.blobs;
      PreparedLeaves(before, prepared, generation0, q);
      if !applied {
        return false;
      }
      var generation := ApplyProvisioning(payload, token, salt, hash);
      ghost var undecided := store.blobs;
      AppliedLeaves(before, prepared, undecided, generation0, q);
      if generation.None? {
        return false;
      }
      persistentGeneration := generation.value;
      applied := ClearProvisioningTransaction();
      ClearedLeaves(before, undecided, generation0, q);
    }

    lemma PreparedLeaves(before: Blobs, prepared: Blobs, generation: u64, q: Bundle)
      requires var j := Snapshot(before, generation);
               && (|| prepared == before || prepared == before - {ProvisionTxn}
                   || (j.Encodable() && prepared == before[ProvisionTxn := JournalBytes(j)]))
               && (!j.Encodable() ==> prepared == before)
      ensures ConfigView(prepared) == ConfigView(before)
      ensures AttemptLeaves(before, prepared, generation, q)
    {
      var j := Snapshot(before, generation);
      SameConfig(before, prepared, {ProvisionTxn});
      if prepared == before {
        NothingDone(before, generation, q);
      } else if prepared != before - {ProvisionTxn} {
        JournalRoundTrip(j);
      }
    }

    /** Writing the new credentials and configuration leaves a journalled state undecided. */
    lemma AppliedLeaves(before: Blobs, prepared: Blobs, undecided: Blobs, generation: u64, q: Bundle)
      requires prepared == before[ProvisionTxn := JournalBytes(Snapshot(before, generation))]
      requires Snapshot(before, generation).Encodable() && ConfigView(prepared) == ConfigView(before)
      requires ProvisionTxn in undecided && undecided[ProvisionTxn] == prepared[ProvisionTxn]
      requires forall c: Active | ActiveOf(ConfigView(prepared)) == Some(c) && parses(c.record.payload) ::
                 ConfigKept(ConfigView(undecided), c)
      ensures AttemptLeaves(before, undecided, generation, q)
      ensures Undecided(before, undecided, generation)
    {
      JournalRoundTrip(Snapshot(before, generation));
      hide JournalFrom, JournalBytes, ConfigKept, ConfigView;
    }

    lemma ClearedLeaves(before: Blobs, undecided: Blobs, generation: u64, q: Bundle)
      requires Snapshot(before, generation).Encodable() && parses(q.payload)
      requires Credentials(undecided, q.token, q.salt, q.hash)
      requires ActiveOf(ConfigView(undecided)).Some?
      requires ActiveOf(ConfigView(undecided)).value.record.payload == q.payload
      ensures AllNew(undecided - {ProvisionTxn}, q) && AttemptLeaves(before, undecided - {ProvisionTxn}, generation, q)
      ensures ConfigView(undecided - {ProvisionTxn}) == ConfigView(undecided)
    {
      SameConfig(undecided, undecided - {ProvisionTxn}, {ProvisionTxn});
      hide ConfigView;
    }

    /** A recovery, complete or not, of whatever an attempt left is again something an attempt can leave. */
    lemma RecoveredAttempt(before: Blobs, failed: Blobs, after: Blobs, completed: bool, generation: u64, q: Bundle)
      requires AttemptLeaves(before, failed, generation, q)
      requires RecoveryLeaves(failed, after, completed)
      ensures AttemptLeaves(before, after, generation, q)
      ensures completed && Current(before, generation) && ProvisionTxn !in before ==>
                AllOld(after, ActiveOf(ConfigView(before)).value, Snapshot(before, generation)) || AllNew(after, q)
    {
      RecoveredStays(before, failed, after, completed, generation, q);
      hide RecoveryLeaves, AttemptLeaves, AllOld, AllNew;
      RecoveryBasics(failed, after, completed);
      if Current(before, generation) {
        CurrentLeaves(before, after, generation, q);
      }
    }

    lemma RecoveredStays(before: Blobs, failed: Blobs, after: Blobs, completed: bool, generation: u64, q: Bundle)
      requires AttemptLeaves(before, failed, generation, q)
      requires RecoveryLeaves(failed, after, completed)
      ensures AttemptLeaves(before, after, generation, q)
    {
      var j := Snapshot(before, generation);
      if ProvisionTxn in before && RecoveryLeaves(before, failed, false) {
        RecoveryAgain(before, failed, after, completed);
        assert NotBegun(before, after, j);
      } else if Begun(before, failed, generation) {
        assert Journalled(failed, j) ==> Journalled(after, j) || Restored(after, j);
        hide Journalled, Restored;
        assert Begun(before, after, generation);
      }
    }

    lemma RecoveryAgain(before: Blobs, failed: Blobs, after: Blobs, completed: bool)
      requires ProvisionTxn in before && RecoveryLeaves(before, failed, false)
      requires RecoveryLeaves(failed, after, completed)
      ensures RecoveryLeaves(before, after, completed) && RecoveryLeaves(before, after, false)
    {
      hide ConfigKept, ViewOf, ActiveOf, Settled;
      forall c: Active, j: Journal | Protected(before, c, j) && parses(c.record.payload)
        ensures Protected(after, c, j) || AllOld(after, c, j)
        ensures completed ==> AllOld(after, c, j)
      {
        assert Protected(failed, c, j) || AllOld(failed, c, j);
      }
      forall j: Journal | Journalled(before, j)
        ensures Journalled(after, j) || Restored(after, j)
      {
        assert Journalled(failed, j) || Restored(failed, j);
      }
    }

    /** Publishing what a completed recovery settled is again something an attempt can leave. */
    lemma PublishedAttempt(before: Blobs, settled: Blobs, published: Blobs, generation: u64, q: Bundle)
      requires AttemptLeaves(before, settled, generation, q) && ProvisionTxn !in settled
      requires LoadLeaves(settled, published)
      ensures AttemptLeaves(before, published, generation, q)
    {
      if ProvisionTxn in before && RecoveryLeaves(before, settled, false) {
        RecoveredIsSettled(before, settled);
      } else if Begun(before, settled, generation) {
        assert Restored(settled, Snapshot(before, generation));
      } else if NotBegun(before, settled, Snapshot(before, generation)) {
        LoadedTwice(before - {ProvisionTxn}, settled, published);
      }
    }

    lemma LoadedTwice(b: Blobs, settled: Blobs, published: Blobs)
      requires LoadLeaves(b, settled) && LoadLeaves(settled, published)
      ensures LoadLeaves(b, published)
    {
    }

    /** A recovery that got rid of the journal leaves nothing for loading to move. */
    lemma RecoveredIsSettled(before: Blobs, settled: Blobs)
      requires ProvisionTxn in before && ProvisionTxn !in settled && RecoveryLeaves(before, settled, false)
      ensures Settled(ConfigView(settled))
    {
      hide Settled, ViewOf, ActiveOf;
      var j := JournalFrom(before[ProvisionTxn]).value;
      assert Journalled(before, j);
    }

    method PublishRecoveredProvisioningState()
      modifies this, store
      ensures store.on ==> old(store.on)
      ensures LoadLeaves(old(store.blobs), store.blobs)
      ensures forall c: Active ::
                old(store.on) && ActiveOf(ConfigView(old(store.blobs))) == Some(c) && parses(c.record.payload) ==>
                  persistentGeneration == c.record.generation
    {
      var recovered := LoadPersistentConfig();
      if recovered.Some? {
        persistentGeneration := recovered.value.record.generation;
      }
    }

    /**
     * All or nothing. After one provisioning attempt, cut anywhere or failing anywhere, and any number of
     * recoveries, each cut or failing anywhere: what is left is what such an attempt can leave, and the first recovery
     * that completes is the last one to change anything. When the running generation was the active one, the
     * configuration, token, salt and hash are then either all as before the attempt or all new. An attempt that found
     * a journal may instead have left that one to be recovered.
     */
    lemma AllOrNothing(before: Blobs, generation: u64, q: Bundle, states: seq<Blobs>, completed: seq<bool>, n: nat)
      requires |states| == |completed| + 1 && n <= |completed|
      requires AttemptLeaves(before, states[0], generation, q)
      requires forall i :: 0 <= i < |completed| ==> RecoveryLeaves(states[i], states[i + 1], completed[i])
      ensures AttemptLeaves(before, states[n], generation, q)
      ensures Current(before, generation) ==>
                var c, j := ActiveOf(ConfigView(before)).value, Snapshot(before, generation);
                || AllOld(states[n], c, j)
                || AllNew(states[n], q)
                || (Protected(states[n], c, j) && forall i :: 0 <= i < n ==> !completed[i])
                || (ProvisionTxn in before && RecoveryLeaves(before, states[n], false))
      ensures forall i :: 0 <= i < n && completed[i] ==> states[n] == states[i + 1] && ProvisionTxn !in states[n]
    {
      hide RecoveryLeaves, AttemptLeaves;
      AttemptsCompose(before, generation, q, states, completed, n);
      CompletedIsLast(states, completed, n);
      if Current(before, generation) {
        CurrentLeaves(before, states[n], generation, q);
        if !(forall i :: 0 <= i < n ==> !completed[i]) {
          var i :| 0 <= i < n && completed[i];
          assert ProvisionTxn !in states[n];
        }
      }
    }

    /** What an attempt can leave when the running generation is the active one. */
    lemma CurrentLeaves(before: Blobs, after: Blobs, generation: u64, q: Bundle)
      requires Current(before, generation) && AttemptLeaves(before, after, generation, q)
      ensures var c, j := ActiveOf(ConfigView(before)).value, Snapshot(before, generation);
              || AllOld(after, c, j) || (AllNew(after, q) && parses(q.payload)) || Protected(after, c, j)
              || (ProvisionTxn in before && RecoveryLeaves(before, after, false))
    {
      SameConfig(before, before - {ProvisionTxn}, {ProvisionTxn});
      hide ViewOf, ActiveOf, RecoveryLeaves;
    }

    lemma {:induction false} AttemptsCompose(before: Blobs, generation: u64, q: Bundle, states: seq<Blobs>,
                                             completed: seq<bool>, n: nat)
      requires |states| == |completed| + 1 && n <= |completed|
      requires AttemptLeaves(before, states[0], generation, q)
      requires forall i :: 0 <= i < |completed| ==> RecoveryLeaves(states[i], states[i + 1], completed[i])
      ensures AttemptLeaves(before, states[n], generation, q)
    {
      hide RecoveryLeaves, AttemptLeaves;
      if n > 0 {
        AttemptsCompose(before, generation, q, states, completed, n - 1);
        assert RecoveryLeaves(states[n - 1], states[n - 1 + 1], completed[n - 1]);
        RecoveredAttempt(before, states[n - 1], states[n], completed[n - 1], generation, q);
      }
    }

    lemma {:induction false} CompletedIsLast(states: seq<Blobs>, completed: seq<bool>, n: nat)
      requires |states| == |completed| + 1 && n <= |completed|
      requires forall i :: 0 <= i < |completed| ==> RecoveryLeaves(states[i], states[i + 1], completed[i])
      ensures forall i :: 0 <= i < n && completed[i] ==> states[n] == states[i + 1] && ProvisionTxn !in states[n]
    {
      hide RecoveryLeaves;
      if n > 0 {
        CompletedIsLast(states, completed, n - 1);
        assert RecoveryLeaves(states[n - 1], states[n - 1 + 1], completed[n - 1]);
        RecoveryBasics(states[n - 1], states[n], completed[n - 1]);
      }
    }

    lemma {:induction false} RecoveriesSettle(c: Active, j: Journal, states: seq<Blobs>, completed: seq<bool>, n: nat)
      requires parses(c.record.payload) && |states| == |completed| + 1 && n <= |completed|
      requires ProvisionTxn !in states[0] || Protected(states[0], c, j)
      requires forall i :: 0 <= i < |completed| ==> RecoveryLeaves(states[i], states[i + 1], completed[i])
      ensures || (ProvisionTxn !in states[0] && states[n] == states[0])
              || AllOld(states[n], c, j)
              || (Protected(states[n], c, j) && forall i :: 0 <= i < n ==> !completed[i])
      ensures forall i :: 0 <= i < n && completed[i] ==> states[n] == states[i + 1] && ProvisionTxn !in states[n]
    {
      hide RecoveryLeaves, Protected, AllOld;
      CompletedIsLast(states, completed, n);
      if n > 0 {
        RecoveriesSettle(c, j, states, completed, n - 1);
        assert RecoveryLeaves(states[n - 1], states[n - 1 + 1], completed[n - 1]);
        OneRecovery(c, j, states[n - 1], states[n], completed[n - 1]);
      }
    }

    lemma OneRecovery(c: Active, j: Journal, s: Blobs, t: Blobs, completed: bool)
      requires RecoveryLeaves(s, t, completed) && parses(c.record.payload)
      ensures ProvisionTxn !in s ==> t == s
      ensures Protected(s, c, j) ==> Protected(t, c, j) || AllOld(t, c, j)
      ensures Protected(s, c, j) && completed ==> AllOld(t, c, j)
      ensures AllOld(s, c, j) ==> t == s
    {
    }

    // ----- boots -----------------------------------------------------------------------------

    /** A boot recovers and, when that completes, loads. */
    ghost predicate BootLeaves(before: Blobs, recovered: Blobs, after: Blobs, completed: bool)
    {
      && RecoveryLeaves(before, recovered, completed)
      && if completed then LoadLeaves(recovered, after) else after == recovered
    }

    /** The part of ConfigService::begin that recovers and loads; it comes up with what it loaded, or not at all. */
    method StartUp() returns (up: bool, ghost recovered: Blobs, ghost completed: bool)
      requires Valid()
      modifies this, store
      ensures BootLeaves(old(store.blobs), recovered, store.blobs, completed)
      ensures up ==>
                && completed && store.on && Ready(store.blobs, persistentGeneration)
                && Running(ActiveOf(ConfigView(store.blobs)).value)
      ensures store.on ==> old(store.on)
      ensures Conflicted(old(store.blobs)) ==> !up && store.blobs == old(store.blobs)
      ensures old(store.on) && old(store.script) == [] ==>
                forall c: Active, j: Journal :: Held(old(store.blobs), c, j) ==> up && AllOld(store.blobs, c, j)
    {
      hide Protected, ConfigKept, ViewOf, ActiveOf, JournalLeaves;
      ghost var before := store.blobs;
      var restored := RecoverIncompleteProvisioning();
      recovered, completed := store.blobs, restored;
      RecoveryBasics(before, recovered, completed);
      BootKeepsHeld(before, recovered, completed);
      if !restored {
        return false, recovered, completed;
      }
      var loaded := LoadPersistentConfig();
      if loaded.None? {
        return false, recovered, completed;
      }
      persistentGeneration := loaded.value.record.generation;
      up := true;
    }

    lemma BootKeepsHeld(before: Blobs, recovered: Blobs, completed: bool)
      requires RecoveryLeaves(before, recovered, completed)
      ensures forall c: Active, j: Journal :: Held(before, c, j) ==> Held(recovered, c, j)
      ensures completed ==>
                forall c: Active, j: Journal :: Held(before, c, j) ==>
                  AllOld(recovered, c, j) && Settled(ConfigView(recovered))
    {
      hide ConfigKept, ViewOf, JournalLeaves;
    }

    /**
     * Power comes back, the device boots, and the power may go again, once for each script; `up` is how the last boot
     * ended. One boot that nothing disturbs is enough, whatever the cut boots before it left and the ones after it do.
     */
    method RecoverAcrossBoots(scripts: seq<seq<Outcome>>) returns (up: bool)
      requires Valid()
      modifies this, store
      ensures forall c: Active, j: Journal :: Held(old(store.blobs), c, j) ==>
                && Held(store.blobs, c, j)
                && ([] in scripts ==> AllOld(store.blobs, c, j))
      ensures up ==> Ready(store.blobs, persistentGeneration)
      ensures ProvisionTxn !in old(store.blobs) ==> LoadLeaves(old(store.blobs), store.blobs)
      // a journal that names a newer generation is there for good
      ensures Conflicted(old(store.blobs)) ==> !up && store.blobs == old(store.blobs)
    {
      hide Held, AllOld, BootLeaves, LoadLeaves, Conflicted, Ready;
      up := false;
      LoadReflexive(store.blobs);
      for k := 0 to |scripts|
        invariant forall c: Active, j: Journal :: Held(old(store.blobs), c, j) ==>
                    && Held(store.blobs, c, j)
                    && ([] in scripts[..k] ==> AllOld(store.blobs, c, j))
        invariant up ==> Ready(store.blobs, persistentGeneration)
        invariant ProvisionTxn !in old(store.blobs) ==> LoadLeaves(old(store.blobs), store.blobs)
        invariant Conflicted(old(store.blobs)) ==> !up && store.blobs == old(store.blobs)
      {
        ghost var found := store.blobs;
        ghost var recovered, completed;
        store.PowerUp(scripts[k]);
        up, recovered, completed := StartUp();
        forall c: Active, j: Journal | Held(old(store.blobs), c, j)
          ensures Held(store.blobs, c, j)
          ensures [] in scripts[..k + 1] ==> AllOld(store.blobs, c, j)
        {
          BootOnce(c, j, found, recovered, store.blobs, completed);
          assert scripts[..k + 1] == scripts[..k] + [scripts[k]];
        }
        if ProvisionTxn !in old(store.blobs) {
          BootWithout(old(store.blobs), found, recovered, store.blobs, completed);
        }
      }
      assert scripts[..|scripts|] == scripts;
    }

    lemma LoadReflexive(b: Blobs)
      ensures LoadLeaves(b, b)
    {
    }

    lemma BootOnce(c: Active, j: Journal, found: Blobs, recovered: Blobs, after: Blobs, completed: bool)
      requires BootLeaves(found, recovered, after, completed) && Held(found, c, j)
      ensures Held(after, c, j)
      ensures AllOld(found, c, j) || completed ==> AllOld(after, c, j)
    {
      BootKeepsHeld(found, recovered, completed);
      hide ConfigKept, ViewOf, JournalLeaves, ActiveOf, Settled;
    }

    lemma BootWithout(before: Blobs, found: Blobs, recovered: Blobs, after: Blobs, completed: bool)
      requires ProvisionTxn !in before && LoadLeaves(before, found) && BootLeaves(found, recovered, after, completed)
      ensures LoadLeaves(before, after)
    {
      if completed {
        LoadedTwice(before, found, after);
      }
    }

    // ----- when an attempt is safe -----------------------------------------------------------

    /** Neither the store nor its journal holds the record `c` with the credentials of `j`. */
    ghost predicate Lost(blobs: Blobs, c: Active, j: Journal)
    {
      if ProvisionTxn in blobs then exists k :: Journalled(blobs, k) && k != j else !AllOld(blobs, c, j)
    }

    lemma LostIsNotHeld(blobs: Blobs, c: Active, j: Journal)
      requires Lost(blobs, c, j)
      ensures !Held(blobs, c, j)
    {
    }

    /** A store whose journal, or what was recovered from it, is another one has lost the old contents. */
    lemma OtherJournalIsLost(blobs: Blobs, c: Active, j: Journal, k: Journal)
      requires j.previousGeneration == c.record.generation && k != j
      requires Journalled(blobs, k) || Restored(blobs, k)
      ensures Lost(blobs, c, j)
    {
      hide ConfigView;
    }

    /** What is lost stays lost, through any number of recoveries, complete or not. */
    lemma {:induction false} LostForGood(c: Active, j: Journal, states: seq<Blobs>, completed: seq<bool>, n: nat)
      requires |states| == |completed| + 1 && n <= |completed|
      requires j.previousGeneration == c.record.generation && Lost(states[0], c, j)
      requires forall i :: 0 <= i < |completed| ==> RecoveryLeaves(states[i], states[i + 1], completed[i])
      ensures Lost(states[n], c, j)
    {
      hide RecoveryLeaves, Lost;
      if n > 0 {
        LostForGood(c, j, states, completed, n - 1);
        assert RecoveryLeaves(states[n - 1], states[n - 1 + 1], completed[n - 1]);
        LostNext(c, j, states[n - 1], states[n], completed[n - 1]);
      }
    }

    lemma LostNext(c: Active, j: Journal, s: Blobs, t: Blobs, completed: bool)
      requires j.previousGeneration == c.record.generation && Lost(s, c, j) && RecoveryLeaves(s, t, completed)
      ensures Lost(t, c, j)
    {
      if ProvisionTxn in s {
        var k :| Journalled(s, k) && k != j;
        OtherJournalIsLost(t, c, j, k);
      }
    }

    /** After the attempt the old contents are still held, or the new ones are committed. */
    ghost predicate Safe(after: Blobs, c: Active, j: Journal, q: Bundle)
    {
      Held(after, c, j) || AllNew(after, q)
    }

    /** Whatever is asked for and however the attempt is cut or fails, it is safe. */
    ghost predicate AlwaysSafe(before: Blobs, generation: u64, c: Active, j: Journal)
    {
      forall q: Bundle, after: Blobs :: AttemptLeaves(before, after, generation, q) ==> Safe(after, c, j, q)
    }

    /**
     * When an attempt is safe. Over every request and every way it can be cut or fail, the old contents stay within
     * reach of recovery or the new ones are committed, if and only if the store is clean and the running generation is
     * the active one, or the attempt could not write a journal of its own. A retry over a journal is one case.
     */
    lemma AttemptIsSafeIff(before: Blobs, generation: u64, c: Active, j: Journal)
      requires Held(before, c, j)
      ensures AlwaysSafe(before, generation, c, j) <==>
                Ready(before, generation) || !Snapshot(before, generation).Encodable()
    {
      var k := Snapshot(before, generation);
      if Ready(before, generation) || !k.Encodable() {
        forall q: Bundle, after: Blobs | AttemptLeaves(before, after, generation, q)
          ensures Safe(after, c, j, q)
        {
          SafeWhenReady(before, after, generation, c, j, q);
        }
      } else if k != j {
        OwnJournalLoses(before, generation, c, j, []);
        var q, after := Bundle([], [], [], []), HalfWritten(before, generation, []);
        assert AttemptLeaves(before, after, generation, q) && !Safe(after, c, j, q);
      } else {
        var q := DroppedJournalLoses(before, generation, c, j);
        var after := before - {ProvisionTxn};
        assert AttemptLeaves(before, after, generation, q) && !Safe(after, c, j, q);
      }
    }

    /** On a ready store the snapshot is what is held. */
    lemma ReadySnapshot(before: Blobs, generation: u64, c: Active, j: Journal)
      requires Held(before, c, j) && Ready(before, generation)
      ensures ActiveOf(ConfigView(before)) == Some(c) && Snapshot(before, generation) == j && Current(before, generation)
      ensures Credentials(before, j.token, j.salt, j.hash)
    {
    }

    lemma SafeWhenReady(before: Blobs, after: Blobs, generation: u64, c: Active, j: Journal, q: Bundle)
      requires Held(before, c, j) && AttemptLeaves(before, after, generation, q)
      requires Ready(before, generation) || !Snapshot(before, generation).Encodable()
      ensures Safe(after, c, j, q)
    {
      hide NotBegun, Held, Snapshot, ConfigView, ActiveOf, Ready, Current, Protected, AllOld, AllNew;
      if NotBegun(before, after, Snapshot(before, generation)) {
        HeldThroughNotBegun(before, after, generation, c, j);
      } else if Begun(before, after, generation) {
        ReadySnapshot(before, generation, c, j);
        HeldIs(before, after, c, j);
      }
    }

    lemma HeldIs(before: Blobs, after: Blobs, c: Active, j: Journal)
      requires Held(before, c, j)
      ensures Protected(after, c, j) || AllOld(after, c, j) ==> Held(after, c, j)
    {
      hide Protected, AllOld;
    }

    lemma HeldThroughNotBegun(before: Blobs, after: Blobs, generation: u64, c: Active, j: Journal)
      requires Held(before, c, j) && NotBegun(before, after, Snapshot(before, generation))
      requires Ready(before, generation) || !Snapshot(before, generation).Encodable()
      ensures Held(after, c, j)
    {
      hide Held, RecoveryLeaves, LoadLeaves, ConfigView, ActiveOf, Snapshot, Ready;
      if ProvisionTxn in before && RecoveryLeaves(before, after, false) {
        BootKeepsHeld(before, after, false);
      } else {
        if Ready(before, generation) {
          ReadySnapshot(before, generation, c, j);
        }
        HeldThroughErase(before, after, c, j);
      }
    }

    lemma HeldThroughErase(before: Blobs, after: Blobs, c: Active, j: Journal)
      requires Held(before, c, j) && LoadLeaves(before - {ProvisionTxn}, after)
      requires ProvisionTxn in before ==>
                 ActiveOf(ConfigView(before)) == Some(c) && Credentials(before, j.token, j.salt, j.hash)
      ensures Held(after, c, j)
    {
      SameConfig(before, before - {ProvisionTxn}, {ProvisionTxn});
      hide ViewOf, ConfigKept, OnlyKeys;
      assert after == before - {ProvisionTxn};
    }

    /** The attempt's own journal, written over what was held, is another one. */
    lemma OwnJournalLoses(before: Blobs, generation: u64, c: Active, j: Journal, token: seq<byte>)
      requires Held(before, c, j)
      requires Snapshot(before, generation) != j && Snapshot(before, generation).Encodable()
      ensures var after := HalfWritten(before, generation, token);
              && Lost(after, c, j)
              && forall q :: AttemptLeaves(before, after, generation, q) && !Safe(after, c, j, q)
    {
      var after, k := HalfWritten(before, generation, token), Snapshot(before, generation);
      HalfWrittenIsUnmoved(before, generation, token);
      OtherJournalIsLost(after, c, j, k);
      LostIsNotHeld(after, c, j);
      hide HalfWritten, ViewOf, ActiveOf, Held, Lost;
    }

    /** Behind a newer active record the journal is all that leads back, and it can be erased. */
    lemma DroppedJournalLoses(before: Blobs, generation: u64, c: Active, j: Journal) returns (q: Bundle)
      requires Held(before, c, j) && Snapshot(before, generation) == j && j.Encodable() && !Ready(before, generation)
      ensures var after := before - {ProvisionTxn};
              Lost(after, c, j) && AttemptLeaves(before, after, generation, q) && !Safe(after, c, j, q)
    {
      var after := before - {ProvisionTxn};
      SameConfig(before, after, {ProvisionTxn});
      q := Bundle(ActiveOf(ConfigView(before)).value.record.payload + [0], [], [], []);
      LoadReflexive(after);
      hide ViewOf, LoadLeaves;
      assert Lost(after, c, j);
    }

    /**
     * An attempt that fails without further faults restores what was held when the store was ready or the attempt
     * could not write its journal, and otherwise loses it as soon as its own journal is another one.
     */
    lemma FailedRetry(before: Blobs, after: Blobs, c: Active, j: Journal, generation: u64)
      requires Held(before, c, j) && Undone(before, after, generation)
      ensures Ready(before, generation) || !Snapshot(before, generation).Encodable() ==> AllOld(after, c, j)
      ensures Snapshot(before, generation).Encodable() && Snapshot(before, generation) != j ==> Lost(after, c, j)
      ensures Ready(before, generation) ==> Snapshot(before, generation) == j
    {
      if Ready(before, generation) {
        ReadySnapshot(before, generation, c, j);
      }
      if Snapshot(before, generation).Encodable() && Snapshot(before, generation) != j {
        OtherJournalIsLost(after, c, j, Snapshot(before, generation));
      }
      hide ViewOf, ActiveOf, Lost, Restored, Journalled;
    }

    // ----- the ways an unsafe attempt loses, each by a run of the code --------------------------

    /** Wherever its own journal would be another one: a verifier that cannot be derived is enough. */
    method UnderivedVerifierLoses(ghost c: Active, ghost j: Journal, payload: seq<byte>, token: seq<byte>)
      requires Valid() && store.on && store.script == [] && Held(store.blobs, c, j)
      requires Snapshot(store.blobs, persistentGeneration) != j
      requires Snapshot(store.blobs, persistentGeneration).Encodable() && 32 <= |token| <= 256
      modifies this, store
      ensures Lost(store.blobs, c, j)
      // ahead of the active generation, it also leaves a journal that every boot refuses
      ensures Stale(old(store.blobs), old(persistentGeneration)) ==>
                && Conflicted(store.blobs) && persistentGeneration == old(persistentGeneration)
                && store.blobs == HalfWritten(old(store.blobs), persistentGeneration, token)
    {
      ghost var before, generation := store.blobs, persistentGeneration;
      var _ := CommitProvisioning(true, payload, token, [], None);
      hide AttemptLeaves, RecoveryLeaves, ViewOf, ActiveOf, Lost, Held, HalfWritten, Conflicted, Stale;
      FailedRetry(before, store.blobs, c, j, generation);
      HalfWrittenIsUnmoved(before, generation, token);
    }

    /** Wherever the store is not clean: a journal that cannot be written, and the one that was there erased. */
    method RefusedJournalLoses(ghost c: Active, ghost j: Journal, payload: seq<byte>, token: seq<byte>, salt: seq<byte>,
                               hash: Option<seq<byte>>)
      requires Valid() && store.on && store.script == [REFUSED, FINE]
      requires Protected(store.blobs, c, j) && !Clean(store.blobs)
      requires parses(ActiveOf(ConfigView(store.blobs)).value.record.payload)
      requires Snapshot(store.blobs, persistentGeneration).Encodable()
      modifies this, store
      ensures store.blobs == old(store.blobs) - {ProvisionTxn} && Lost(store.blobs, c, j)
    {
      ghost var before := store.blobs;
      SameConfig(before, before - {ProvisionTxn}, {ProvisionTxn});
      var _ := CommitProvisioning(true, payload, token, salt, hash);
      hide AttemptLeaves, ViewOf;
    }

    /**
     * From a store with nothing amiss to one that mixes two requests. A verifier that cannot be derived and a
     * restoring write that is refused leave the first request's token behind the journal; the next attempt journals
     * that token, fails for the same reason, and its recovery, which completes, puts the first request's token beside
     * the old salt and hash.
     */
    method RetryMixesCredentials(c: Active, payload: seq<byte>, first: seq<byte>, second: seq<byte>)
      requires Valid() && Running(c)
      requires store.on && RestoreRefused(store.script) && ProvisionTxn !in store.blobs
      requires Snapshot(store.blobs, persistentGeneration).Encodable() && Preference(store.blobs, EnrollTok) != []
      requires 32 <= |first| <= 256 && 32 <= |second| <= 256
      modifies this, store
      ensures var j := Snapshot(old(store.blobs), old(persistentGeneration));
              && AllOld(store.blobs, c, j.(token := first))
              && (first != j.token ==> !AllOld(store.blobs, c, j))
    {
      ghost var before, generation := store.blobs, persistentGeneration;
      RunningIsCurrent(c);
      HalfWrittenSnapshot(before, generation, first);
      hide AttemptLeaves, RecoveryLeaves, LoadLeaves, ConfigView, HalfWritten, Current, Running, Snapshot, RestoreRefused,
           Stale, Sound, ErasesRefused, Committable, Held;
      var ok := CommitProvisioning(true, payload, first, [], None);
      ok := CommitProvisioning(true, payload, second, [], None);
    }

    lemma RunningIsCurrent(c: Active)
      requires Running(c)
      ensures Current(store.blobs, persistentGeneration) && ActiveOf(ConfigView(store.blobs)) == Some(c)
      ensures Snapshot(store.blobs, persistentGeneration).token == Preference(store.blobs, EnrollTok)
    {
    }

    /** What the next attempt would journal: the new token beside the old salt and hash. */
    lemma HalfWrittenSnapshot(before: Blobs, generation: u64, token: seq<byte>)
      requires Snapshot(before, generation).Encodable() && |token| <= MAXIMUM_TOKEN_LENGTH
      ensures var half := HalfWritten(before, generation, token);
              && Snapshot(half, generation) == Snapshot(before, generation).(token := token)
              && Snapshot(half, generation).Encodable()
              && ConfigView(half) == ConfigView(before) && (Current(before, generation) ==> Current(half, generation))
    {
      HalfWrittenIsUnmoved(before, generation, token);
      hide ConfigView, JournalBytes;
    }

    /**
     * From a store with nothing amiss to one that never boots again. The first attempt gets as far as running the new
     * configuration, and its erase of the journal is refused; its recovery restores everything, and its erase of the
     * journal is refused as well, so the store is clean and the service still runs the new generation. The next attempt
     * journals that generation, and its verifier cannot be derived. The journal now names a generation newer than the
     * active one: recovery refuses it, and so does every boot.
     */
    method StaleRetryFailsForGood(c: Active, payload: seq<byte>, token: seq<byte>, salt: seq<byte>, hash: seq<byte>,
                                  second: seq<byte>, scripts: seq<seq<Outcome>>)
      returns (up: bool)
      requires Valid() && Running(c) && store.on && ProvisionTxn !in store.blobs
      requires ErasesRefused(store.script)
      requires Sound(payload, token, salt, Some(hash)) && Committable(ConfigView(store.blobs), payload)
      requires Snapshot(store.blobs, persistentGeneration).Encodable() && Snapshot(store.blobs, persistentGeneration).Full()
      requires 32 <= |second| <= 256
      modifies this, store
      ensures var j := Snapshot(old(store.blobs), old(persistentGeneration));
              && !up && Conflicted(store.blobs) && Lost(store.blobs, c, j)
              && Credentials(store.blobs, second, j.salt, j.hash)
    {
      ghost var j := Snapshot(store.blobs, persistentGeneration);
      var _ := CommitProvisioning(true, payload, token, salt, Some(hash));
      ghost var clean, generation := store.blobs, persistentGeneration;
      ReinstatedIsStale(c, j);
      UnderivedVerifierLoses(c, j, payload, second);
      HalfWrittenHolds(clean, generation, second);
      up := RecoverAcrossBoots(scripts);
    }

    lemma ReinstatedIsStale(c: Active, j: Journal)
      requires Reinstated(c, j) && parses(c.record.payload) && persistentGeneration > c.record.generation && j.Encodable()
      ensures Held(store.blobs, c, j) && Clean(store.blobs) && Stale(store.blobs, persistentGeneration)
      ensures var k := Snapshot(store.blobs, persistentGeneration);
              k == j.(previousGeneration := persistentGeneration) && k.Encodable() && k != j
    {
    }

    lemma HalfWrittenHolds(before: Blobs, generation: u64, token: seq<byte>)
      ensures Credentials(HalfWritten(before, generation, token), token, Preference(before, AdminSalt),
                          Preference(before, AdminHash))
    {
    }

    // ----- runs of attempts and boots ----------------------------------------------------------

    /** The journal leads back to the bundle `b`. */
    ghost predicate LeadsBack(blobs: Blobs, b: Bundle)
    {
      exists c: Active, j: Journal :: Protected(blobs, c, j) && Describes(c, j, b)
    }

    ghost predicate Describes(c: Active, j: Journal, b: Bundle)
    {
      && parses(c.record.payload) && c.record.payload == b.payload
      && j.token == b.token && j.salt == b.salt && j.hash == b.hash
    }

    /** The store holds the bundle `b`, or its journal leads back to it. */
    ghost predicate Keeps(blobs: Blobs, b: Bundle)
    {
      if ProvisionTxn in blobs then LeadsBack(blobs, b) else AllNew(blobs, b) && parses(b.payload)
    }

    ghost predicate Whole(blobs: Blobs, bundles: set<Bundle>)
    {
      exists b :: b in bundles && Keeps(blobs, b)
    }

    ghost predicate Runs(s: Moment) { s.generation.Some? && Ready(s.blobs, s.generation.value) }

    ghost predicate Takes(s: Moment, t: Moment, turn: Turn, bundles: set<Bundle>)
    {
      match turn
      case Attempt(q, ok) =>
        && s.generation.Some? && q in bundles && AttemptLeaves(s.blobs, t.blobs, s.generation.value, q)
        && (ok ==> AllNew(t.blobs, q) && Runs(t))
      case Boot(recovered, completed) =>
        && BootLeaves(s.blobs, recovered, t.blobs, completed)
        && (t.generation.Some? ==> completed && Runs(t))
      case PowerCut => t == s.(generation := None)
    }

    ghost predicate RunOf(moments: seq<Moment>, turns: seq<Turn>, bundles: set<Bundle>)
    {
      && |moments| == |turns| + 1
      && forall i :: 0 <= i < |turns| ==> Takes(moments[i], moments[i + 1], turns[i], bundles)
    }

    /** The turn comes right after a boot or an attempt that succeeded, or the store is ready for it all the same. */
    ghost predicate Guarded(moments: seq<Moment>, turns: seq<Turn>, i: nat)
      requires i < |turns| && |moments| == |turns| + 1
    {
      turns[i].Attempt? ==>
        || (i > 0 && (turns[i - 1].Boot? || (turns[i - 1].Attempt? && turns[i - 1].ok)))
        || Runs(moments[i])
    }

    lemma RecoveryKeeps(before: Blobs, after: Blobs, completed: bool, b: Bundle)
      requires Keeps(before, b) && RecoveryLeaves(before, after, completed)
      ensures Keeps(after, b)
    {
      hide ConfigKept, ViewOf, JournalLeaves;
      if ProvisionTxn in before {
        var c: Active, j: Journal :| Protected(before, c, j) && Describes(c, j, b);
      }
    }

    lemma BootKeeps(before: Blobs, recovered: Blobs, after: Blobs, completed: bool, b: Bundle)
      requires Keeps(before, b) && BootLeaves(before, recovered, after, completed)
      ensures Keeps(after, b)
    {
      RecoveryKeeps(before, recovered, completed, b);
      RecoveryBasics(before, recovered, completed);
    }

    /** What an attempt would journal of a ready store is the bundle the store keeps, and its payload parses. */
    lemma ReadyKeeps(before: Blobs, generation: u64, b: Bundle)
      requires Keeps(before, b) && Ready(before, generation)
      ensures Current(before, generation)
      ensures Describes(ActiveOf(ConfigView(before)).value, Snapshot(before, generation), b)
    {
      if ProvisionTxn in before {
        var c: Active, j: Journal :| Protected(before, c, j) && Describes(c, j, b);
        assert ActiveOf(ConfigView(before)) == Some(c);
      }
    }

    lemma AttemptKeeps(before: Blobs, after: Blobs, generation: u64, q: Bundle, b: Bundle)
      requires Keeps(before, b) && Ready(before, generation)
      requires AttemptLeaves(before, after, generation, q)
      ensures Keeps(after, b) || Keeps(after, q)
    {
      hide Keeps, Describes, AttemptLeaves, Ready, RecoveryLeaves, Current, Protected, AllOld, AllNew, Snapshot;
      ReadyKeeps(before, generation, b);
      CurrentLeaves(before, after, generation, q);
      if ProvisionTxn in before && RecoveryLeaves(before, after, false) {
        RecoveryKeeps(before, after, false, b);
      } else {
        KeepsEither(after, ActiveOf(ConfigView(before)).value, Snapshot(before, generation), q, b);
      }
    }

    lemma KeepsEither(after: Blobs, c: Active, j: Journal, q: Bundle, b: Bundle)
      requires Describes(c, j, b)
      requires AllOld(after, c, j) || Protected(after, c, j) || (AllNew(after, q) && parses(q.payload))
      ensures Keeps(after, b) || Keeps(after, q)
    {
      if Protected(after, c, j) {
        assert LeadsBack(after, b);
      }
    }

    /**
     * Any number of attempts, boots and power losses, in any order, failing or cut anywhere. As long as every attempt
     * follows a boot or an attempt that succeeded, or finds the store clean and its running generation active, the
     * store never holds a mixture of the bundles that were asked for and the one it began with.
     */
    lemma {:induction false} AttemptsStayWhole(bundles: set<Bundle>, moments: seq<Moment>, turns: seq<Turn>, n: nat)
      requires RunOf(moments, turns, bundles) && n <= |turns|
      requires forall i :: 0 <= i < |turns| ==> Guarded(moments, turns, i)
      ensures Whole(moments[0].blobs, bundles) ==> Whole(moments[n].blobs, bundles)
    {
      hide Takes, Whole, Guarded;
      if n > 0 && Whole(moments[0].blobs, bundles) {
        AttemptsStayWhole(bundles, moments, turns, n - 1);
        assert Takes(moments[n - 1], moments[n - 1 + 1], turns[n - 1], bundles);
        if turns[n - 1].Attempt? {
          GuardedIsReady(bundles, moments, turns, n - 1);
        }
        TurnKeepsWhole(bundles, moments[n - 1], moments[n], turns[n - 1]);
      }
    }

    lemma TurnKeepsWhole(bundles: set<Bundle>, s: Moment, t: Moment, turn: Turn)
      requires Takes(s, t, turn, bundles) && Whole(s.blobs, bundles) && (turn.Attempt? ==> Runs(s))
      ensures Whole(t.blobs, bundles)
    {
      hide Keeps, AttemptLeaves, BootLeaves, Ready;
      var b :| b in bundles && Keeps(s.blobs, b);
      match turn {
        case Attempt(q, ok) => AttemptKeeps(s.blobs, t.blobs, s.generation.value, q, b);
        case Boot(recovered, completed) => BootKeeps(s.blobs, recovered, t.blobs, completed, b);
        case PowerCut =>
      }
    }

    /** A boot that comes up and an attempt that succeeds leave the store ready for the next attempt. */
    lemma GuardedIsReady(bundles: set<Bundle>, moments: seq<Moment>, turns: seq<Turn>, i: nat)
      requires RunOf(moments, turns, bundles) && i < |turns| && turns[i].Attempt? && Guarded(moments, turns, i)
      ensures Runs(moments[i])
    {
      assert Takes(moments[i], moments[i + 1], turns[i], bundles);
      if i > 0 {
        assert Takes(moments[i - 1], moments[i - 1 + 1], turns[i - 1], bundles);
      }
      hide Ready, AttemptLeaves, BootLeaves;
    }
  }
}
