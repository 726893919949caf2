/**
 * The non-volatile key/value store under power loss (BlobStore of src/config/AtomicConfigStore.h).
 *
 * Every write and erase consumes one Outcome. An operation may report success or failure whatever it
 * did, may leave the key as it was, as requested, or holding bytes no decoder accepts, and may be the
 * last thing that happens before the power goes. Once the power is gone nothing changes any more and
 * nothing reads, so the state a method ends in is the state the cut left behind: a statement about all
 * scripts is a statement about all cut points.
 */
module BlobStores {
  import opened Bytes
  import opened RecordCodec
  import opened ProvisioningTransaction

  /** What a torn write can leave: bytes that fail every decoder. */
  type Torn = b: seq<byte> | RecordFrom(b).None? && MarkerFrom(b).None? && JournalFrom(b).None? witness []

  datatype Residue = Old | New | Partial(blob: Torn)

  datatype Outcome = Outcome(reported: bool, left: Residue, cut: bool)

  /** Nothing goes wrong; or the operation does nothing, says so, and the power stays on. */
  const FINE := Outcome(true, New, false)
  const REFUSED := Outcome(false, Old, false)

  predicate Begins(script: seq<Outcome>, o: Outcome) { script != [] && script[0] == o }

  /** Nothing goes wrong in the next `n` operations. */
  predicate Fine(script: seq<Outcome>, n: nat)
  {
    n <= |script| && forall i :: 0 <= i < n ==> script[i] == FINE
  }

  /** What is left of a script after `n` operations. */
  function After(script: seq<Outcome>, n: nat): seq<Outcome>
  {
    if n <= |script| then script[n..] else []
  }

  /** The keys the models use; the comments give the source's names. */
  datatype Key =
    | CfgA            // cfg_a
    | CfgB            // cfg_b
    | CfgActive       // cfg_active
    | EnrollA         // enroll_a
    | EnrollB         // enroll_b
    | EnrollActive    // enroll_active
    | ProvisionTxn    // provision_txn
    | EnrollTok       // enroll_tok
    | AdminSalt       // admin_salt
    | AdminHash       // admin_hash

  type Blobs = map<Key, seq<byte>>

  ghost predicate TornAt(before: Blobs, after: Blobs, key: Key, torn: Torn)
  {
    after == before[key := torn]
  }

  /** The possible contents after a write of `value` to `key`. */
  ghost predicate WriteLeaves(before: Blobs, after: Blobs, key: Key, value: seq<byte>, atomic: bool)
  {
    || after == before
    || after == before[key := value]
    || (!atomic && exists torn: Torn :: TornAt(before, after, key, torn))
  }

  ghost predicate EraseLeaves(before: Blobs, after: Blobs, key: Key, atomic: bool)
  {
    || after == before
    || after == before - {key}
    || (!atomic && exists torn: Torn :: TornAt(before, after, key, torn))
  }

  class BlobStore {
    var blobs: Blobs
    var on: bool
    /** Outcomes still to come; once used up, every operation succeeds. */
    var script: seq<Outcome>
    /** Keys whose writes and erases the hardware makes all-or-nothing. */
    const atomicKeys: set<Key>
    /** When set, an erase under power always removes the key and says so. */
    const reliableErase: bool

    constructor (blobs: Blobs, script: seq<Outcome>, atomicKeys: set<Key>, reliableErase: bool)
      ensures this.blobs == blobs && this.script == script && on
      ensures this.atomicKeys == atomicKeys && this.reliableErase == reliableErase
    {
      this.blobs := blobs;
      this.script := script;
      this.atomicKeys := atomicKeys;
      this.reliableErase := reliableErase;
      on := true;
    }

    /** Power comes back with the contents the cut left. */
    method PowerUp(script: seq<Outcome>)
      modifies `on, `script
      ensures on && this.script == script
    {
      on := true;
      this.script := script;
    }

    /** A read succeeds exactly on a present, non-empty blob. */
    function Read(key: Key): Option<seq<byte>>
      reads this
    {
      if on && key in blobs && |blobs[key]| != 0 then Some(blobs[key]) else None
    }

    method NextOutcome() returns (o: Outcome)
      modifies this`script
      ensures old(script) == [] ==> o == FINE && script == []
      ensures old(script) != [] ==> o == old(script)[0] && script == old(script)[1..]
    {
      if script == [] {
        return FINE;
      }
      o := script[0];
      script := script[1..];
    }

    method Write(key: Key, value: seq<byte>) returns (ok: bool)
      modifies this
      ensures WriteLeaves(old(blobs), blobs, key, value, key in atomicKeys)
      ensures !old(on) || value == [] ==> blobs == old(blobs) && !ok
      ensures on || ok ==> old(on)
      ensures ok ==> on
      ensures value == [] ==> on == old(on)
      ensures old(on) && old(script) == [] && value != [] ==>
                ok && on && script == [] && blobs == old(blobs)[key := value]
      ensures old(script) == [] ==> script == []
      ensures old(on) && Begins(old(script), FINE) && value != [] ==>
                ok && on && script == old(script)[1..] && blobs == old(blobs)[key := value]
      ensures old(on) && Begins(old(script), REFUSED) && value != [] ==>
                !ok && on && script == old(script)[1..] && blobs == old(blobs)
    {
      if !on || value == [] {
        return false;
      }
      var o := NextOutcome();
      match o.left {
        case Old =>
        case New => blobs := blobs[key := value];
        case Partial(torn) =>
          if key !in atomicKeys {
            blobs := blobs[key := torn];
            assert TornAt(old(blobs), blobs, key, torn);
          }
      }
      on := !o.cut;
      ok := o.reported && on;
    }

    method Erase(key: Key) returns (ok: bool)
      modifies this
      ensures EraseLeaves(old(blobs), blobs, key, key in atomicKeys)
      ensures !old(on) ==> blobs == old(blobs) && !ok
      ensures on || ok ==> old(on)
      ensures ok ==> on
      ensures key !in old(blobs) ==> blobs == old(blobs) && ok == on
      ensures reliableErase && on ==> ok && blobs == old(blobs) - {key}
      ensures old(on) && Begins(old(script), FINE) ==>
                ok && on && script == old(script)[1..] && blobs == old(blobs) - {key}
      ensures old(on) && Begins(old(script), REFUSED) ==>
                && on && script == old(script)[1..]
                && (key in old(blobs) && !reliableErase ==> !ok && blobs == old(blobs))
      ensures old(on) && old(script) == [] ==> ok && on && script == [] && blobs == old(blobs) - {key}
      ensures old(script) == [] ==> script == []
    {
      if !on {
        return false;
      }
      var o := NextOutcome();
      on := !o.cut;
      if key !in blobs {
        return on;
      }
      if reliableErase && on {
        blobs := blobs - {key};
        return true;
      }
      match o.left {
        case Old =>
        case New => blobs := blobs - {key};
        case Partial(torn) =>
          if key !in atomicKeys {
            blobs := blobs[key := torn];
            assert TornAt(old(blobs), blobs, key, torn);
          }
      }
      ok := o.reported && on;
    }

    /** Whether the key exists; None when the probe itself cannot be made. */
    function KeyPresence(key: Key): Option<bool>
      reads this
    {
      if on then Some(key in blobs) else None
    }
  }
}
