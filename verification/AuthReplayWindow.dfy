/**
 * The fixed-capacity replay window of include/security/AuthReplayWindow.h.
 */
module ReplayWindow {
  import opened Bytes

  newtype Seconds = x: int | -0x8000_0000_0000_0000 <= x < 0x8000_0000_0000_0000

  datatype Verdict = Accepted | Replayed | CapacityExceeded

  datatype Entry<Digest> = Unused | Used(digest: Digest, acceptedAt: Seconds)

  type Table<Digest> = seq<Entry<Digest>>

  /** A call that the window has answered. */
  datatype Call<Digest> = Call(digest: Digest, at: Seconds)

  /** Seconds from one time to a later one; the 64-bit unsigned difference is exact because it is taken only then. */
  function Elapsed(since: Seconds, now: Seconds): (r: nat)
  {
    if now >= since then now as int - since as int else 0
  }

  /** Held and not yet outside the window. */
  predicate Live<Digest(==)>(e: Entry<Digest>, now: Seconds, window: u32)
  {
    e.Used? && Elapsed(e.acceptedAt, now) <= window
  }

  predicate Matches<Digest(==)>(e: Entry<Digest>, digest: Digest, now: Seconds, window: u32)
  {
    Live(e, now, window) && e.digest == digest
  }

  ghost predicate Distinct<Digest>(t: Table<Digest>)
  {
    forall i, j :: 0 <= i < j < |t| && t[i].Used? && t[j].Used? ==> t[i].digest != t[j].digest
  }

  ghost predicate HasMatch<Digest>(t: Table<Digest>, digest: Digest, now: Seconds, window: u32)
  {
    exists i :: 0 <= i < |t| && Matches(t[i], digest, now, window)
  }

  ghost predicate AllLive<Digest>(t: Table<Digest>, now: Seconds, window: u32)
  {
    forall i :: 0 <= i < |t| ==> Live(t[i], now, window)
  }

  /**
   * One call: the verdict, and what becomes of every entry. Live entries stay as they are and expired ones are
   * cleared, as far as the entry that matched; an accepted digest takes the first place that was not live.
   */
  ghost predicate Remembered<Digest>(t: Table<Digest>, u: Table<Digest>, digest: Digest, now: Seconds, window: u32,
                                         verdict: Verdict)
  {
    && |u| == |t|
    && (verdict == Replayed <==> HasMatch(t, digest, now, window))
    && (verdict == CapacityExceeded <==> !HasMatch(t, digest, now, window) && AllLive(t, now, window))
    && (verdict == CapacityExceeded ==> u == t)
    && (verdict == Replayed ==>
          exists k :: && 0 <= k < |t| && Matches(t[k], digest, now, window) && u[k..] == t[k..]
                      && forall i :: 0 <= i < k ==> Kept(t[i], u[i], now, window))
    && (verdict == Accepted ==>
          exists k :: && 0 <= k < |t| && !Live(t[k], now, window) && u[k] == Used(digest, now)
                      && (forall i :: 0 <= i < k ==> Live(t[i], now, window))
                      && forall i :: 0 <= i < |t| && i != k ==> Kept(t[i], u[i], now, window))
  }

  predicate Kept<Digest(==)>(before: Entry<Digest>, after: Entry<Digest>, now: Seconds, window: u32)
  {
    if Live(before, now, window) then after == before
    else after == Unused
  }

  class AuthReplayWindow<Digest(==)> {
    const entries: array<Entry<Digest>>

    constructor (capacity: nat)
      ensures fresh(entries) && entries.Length == capacity && entries[..] == seq(capacity, i => Unused)
    {
      entries := new Entry<Digest>[capacity](i => Unused);
    }

    method Remember(digest: Digest, acceptedAt: Seconds, window: u32) returns (verdict: Verdict)
      modifies entries
      ensures Remembered(old(entries[..]), entries[..], digest, acceptedAt, window, verdict)
      ensures Distinct(old(entries[..])) ==> Distinct(entries[..])
    {
      ghost var t := entries[..];
      var available: Option<nat> := None;
      for k := 0 to entries.Length
        invariant forall i :: 0 <= i < k ==>
                    Kept(t[i], entries[i], acceptedAt, window) && !Matches(t[i], digest, acceptedAt, window)
        invariant forall i :: k <= i < entries.Length ==> entries[i] == t[i]
        invariant available.None? ==> forall i :: 0 <= i < k ==> Live(t[i], acceptedAt, window)
        invariant available.Some? ==>
                    && available.value < k && !Live(t[available.value], acceptedAt, window)
                    && forall i :: 0 <= i < available.value ==> Live(t[i], acceptedAt, window)
      {
        if entries[k].Used? && Elapsed(entries[k].acceptedAt, acceptedAt) > window {
          entries[k] := Unused;
        }
        if entries[k].Used? && entries[k].digest == digest {
          assert Matches(t[k], digest, acceptedAt, window);
          return Replayed;
        }
        if entries[k].Unused? && available.None? {
          available := Some(k);
        }
      }
      if available.None? {
        return CapacityExceeded;
      }
      entries[available.value] := Used(digest, acceptedAt);
      verdict := Accepted;
    }
  }

  // ----- runs: the window refines a set of accepted digests -------------------------------------------

  /** A run with one window: `tables[n]` is the table after `n` calls. */
  ghost predicate Run<Digest>(capacity: nat, window: u32, calls: seq<Call<Digest>>, verdicts: seq<Verdict>,
                                  tables: seq<Table<Digest>>)
  {
    && |verdicts| == |calls| && |tables| == |calls| + 1
    && tables[0] == seq(capacity, i => Unused)
    && (forall n :: 0 <= n < |calls| ==>
          Remembered(tables[n], tables[n + 1], calls[n].digest, calls[n].at, window, verdicts[n]))
    && (forall m, n :: 0 <= m < n < |calls| ==> calls[m].at <= calls[n].at)
  }

  /** Call `m` was accepted, and `now` is still within its window. */
  predicate Protects<Digest(==)>(call: Call<Digest>, verdict: Verdict, now: Seconds, window: u32)
  {
    verdict == Accepted && Elapsed(call.at, now) <= window
  }

  /** The digests accepted among the first `n` calls whose window still covers `now`. */
  ghost function Unexpired<Digest>(calls: seq<Call<Digest>>, verdicts: seq<Verdict>, n: nat, now: Seconds,
                                       window: u32): set<Digest>
    requires n <= |calls| == |verdicts|
  {
    set m | 0 <= m < n && Protects(calls[m], verdicts[m], now, window) :: calls[m].digest
  }

  ghost function LiveDigests<Digest>(t: Table<Digest>, now: Seconds, window: u32): set<Digest>
  {
    set i | 0 <= i < |t| && Live(t[i], now, window) :: t[i].digest
  }

  /** The table holds the unexpired accepted calls and, besides, only calls that were accepted earlier. */
  ghost predicate Represents<Digest>(t: Table<Digest>, calls: seq<Call<Digest>>, verdicts: seq<Verdict>, n: nat,
                                         window: u32)
    requires n <= |calls| == |verdicts|
  {
    && Distinct(t)
    && (forall i :: 0 <= i < |t| && t[i].Used? ==> AcceptedAs(t[i], calls, verdicts, n))
    && (forall m :: 0 <= m < n && Protects(calls[m], verdicts[m], calls[n - 1].at, window) ==>
          Holds(t, calls[m]))
  }

  ghost predicate AcceptedAs<Digest>(e: Entry<Digest>, calls: seq<Call<Digest>>, verdicts: seq<Verdict>, n: nat)
    requires n <= |calls| == |verdicts| && e.Used?
  {
    exists m :: 0 <= m < n && verdicts[m] == Accepted && calls[m] == Call(e.digest, e.acceptedAt)
  }

  ghost predicate Holds<Digest>(t: Table<Digest>, call: Call<Digest>)
  {
    exists i :: 0 <= i < |t| && t[i] == Used(call.digest, call.at)
  }

  lemma {:induction false} RunRepresents<Digest>(capacity: nat, window: u32, calls: seq<Call<Digest>>,
                                                     verdicts: seq<Verdict>, tables: seq<Table<Digest>>, n: nat)
    requires Run(capacity, window, calls, verdicts, tables) && n <= |calls|
    ensures |tables[n]| == capacity && Represents(tables[n], calls, verdicts, n, window)
  {
    if n > 0 {
      RunRepresents(capacity, window, calls, verdicts, tables, n - 1);
      RepresentsNext(tables[n - 1], tables[n - 1 + 1], calls, verdicts, n - 1, window);
    }
  }

  lemma RepresentsNext<Digest>(t: Table<Digest>, u: Table<Digest>, calls: seq<Call<Digest>>,
                                   verdicts: seq<Verdict>, n: nat, window: u32)
    requires n < |calls| == |verdicts| && Represents(t, calls, verdicts, n, window)
    requires Remembered(t, u, calls[n].digest, calls[n].at, window, verdicts[n])
    requires forall m, k :: 0 <= m < k < |calls| ==> calls[m].at <= calls[k].at
    ensures Represents(u, calls, verdicts, n + 1, window)
  {
    StaysDistinct(t, u, calls[n].digest, calls[n].at, window, verdicts[n]);
    forall i | 0 <= i < |u| && u[i].Used?
      ensures AcceptedAs(u[i], calls, verdicts, n + 1)
    {
      if u[i] == t[i] {
        assert AcceptedAs(t[i], calls, verdicts, n);
      }
    }
    forall m | 0 <= m < n + 1 && Protects(calls[m], verdicts[m], calls[n].at, window)
      ensures Holds(u, calls[m])
    {
      if m < n {
        assert calls[m].at <= calls[n - 1].at <= calls[n].at;
        assert Protects(calls[m], verdicts[m], calls[n - 1].at, window);
        var i :| 0 <= i < |t| && t[i] == Used(calls[m].digest, calls[m].at);
        assert Live(t[i], calls[n].at, window);
        assert u[i] == t[i];
      }
    }
  }

  lemma StaysDistinct<Digest>(t: Table<Digest>, u: Table<Digest>, digest: Digest, now: Seconds, window: u32,
                                  verdict: Verdict)
    requires Distinct(t) && Remembered(t, u, digest, now, window, verdict)
    ensures Distinct(u)
  {
  }

  /**
   * The window refines a set: over any run with one window and non-decreasing times, a call is answered Replayed
   * exactly for a digest accepted within the window, CapacityExceeded exactly when the digest is not among
   * them and there are as many of them as entries, and Accepted otherwise. Stored digests are distinct throughout.
   */
  lemma WindowRefinesSet<Digest>(capacity: nat, window: u32, calls: seq<Call<Digest>>, verdicts: seq<Verdict>,
                                     tables: seq<Table<Digest>>, n: nat)
    requires Run(capacity, window, calls, verdicts, tables) && n < |calls|
    ensures var held := Unexpired(calls, verdicts, n, calls[n].at, window);
            && |held| <= capacity
            && (verdicts[n] == Replayed <==> calls[n].digest in held)
            && (verdicts[n] == CapacityExceeded <==> calls[n].digest !in held && |held| == capacity)
    ensures Distinct(tables[n])
  {
    RunRepresents(capacity, window, calls, verdicts, tables, n);
    var t, now := tables[n], calls[n].at;
    SameDigests(t, calls, verdicts, n, window);
    LiveCount(t, now, window);
    assert Remembered(t, tables[n + 1], calls[n].digest, now, window, verdicts[n]);
  }

  lemma SameDigests<Digest>(t: Table<Digest>, calls: seq<Call<Digest>>, verdicts: seq<Verdict>, n: nat, window: u32)
    requires n < |calls| == |verdicts| && Represents(t, calls, verdicts, n, window)
    requires forall m, k :: 0 <= m < k < |calls| ==> calls[m].at <= calls[k].at
    ensures LiveDigests(t, calls[n].at, window) == Unexpired(calls, verdicts, n, calls[n].at, window)
  {
    var now := calls[n].at;
    forall m | 0 <= m < n && Protects(calls[m], verdicts[m], now, window)
      ensures calls[m].digest in LiveDigests(t, now, window)
    {
      assert calls[m].at <= calls[n - 1].at <= now;
      assert Protects(calls[m], verdicts[m], calls[n - 1].at, window);
      var i :| 0 <= i < |t| && t[i] == Used(calls[m].digest, calls[m].at);
      assert Live(t[i], now, window);
    }
    forall i | 0 <= i < |t| && Live(t[i], now, window)
      ensures t[i].digest in Unexpired(calls, verdicts, n, now, window)
    {
      assert AcceptedAs(t[i], calls, verdicts, n);
      var m :| 0 <= m < n && verdicts[m] == Accepted && calls[m] == Call(t[i].digest, t[i].acceptedAt);
      assert Protects(calls[m], verdicts[m], now, window);
    }
  }

  /** Distinct digests: as many live digests as entries exactly when every entry is live. */
  lemma {:induction false} LiveCount<Digest>(t: Table<Digest>, now: Seconds, window: u32)
    requires Distinct(t)
    ensures |LiveDigests(t, now, window)| <= |t|
    ensures |LiveDigests(t, now, window)| == |t| <==> AllLive(t, now, window)
  {
    if t == [] {
      assert LiveDigests(t, now, window) == {};
    } else {
      var last := |t| - 1;
      LiveCount(t[..last], now, window);
      LastLiveDigest(t, now, window);
    }
  }

  lemma LastLiveDigest<Digest>(t: Table<Digest>, now: Seconds, window: u32)
    requires Distinct(t) && t != []
    ensures var rest := LiveDigests(t[..|t| - 1], now, window);
            if Live(t[|t| - 1], now, window)
            then |LiveDigests(t, now, window)| == |rest| + 1
                 && (AllLive(t, now, window) <==> AllLive(t[..|t| - 1], now, window))
            else |LiveDigests(t, now, window)| == |rest| && !AllLive(t, now, window)
  {
    var front, last := t[..|t| - 1], t[|t| - 1];
    var rest := LiveDigests(front, now, window);
    assert forall i :: 0 <= i < |front| ==> front[i] == t[i];
    if Live(last, now, window) {
      assert last.digest !in rest;
      assert LiveDigests(t, now, window) == rest + {last.digest};
    } else {
      assert LiveDigests(t, now, window) == rest;
    }
  }
}
