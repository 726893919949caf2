/** Counting the occupied slots of a fixed pool, and what the tasks' pending accesses to its counter add up to. */
module SlotCounts {
  function Occupied(slots: seq<bool>): (n: nat)
    ensures n <= |slots|
  {
    if slots == [] then 0 else Occupied(slots[..|slots| - 1]) + (if slots[|slots| - 1] then 1 else 0)
  }

  lemma {:induction false} OccupiedUpdate(slots: seq<bool>, i: nat, b: bool)
    requires i < |slots|
    ensures Occupied(slots[i := b]) ==
              Occupied(slots) - (if slots[i] then 1 else 0) + (if b then 1 else 0)
  {
    var last := |slots| - 1;
    if i == last {
      assert slots[i := b][..last] == slots[..last];
    } else {
      OccupiedUpdate(slots[..last], i, b);
      assert slots[i := b][..last] == slots[..last][i := b];
    }
  }

  lemma {:induction false} AllFree(n: nat)
    ensures Occupied(seq(n, i => false)) == 0
  {
    if n > 0 {
      AllFree(n - 1);
      assert seq(n, i => false)[..n - 1] == seq(n - 1, i => false);
    }
  }

  /** The sum of a weight over the tasks. */
  function Total<T>(ts: seq<T>, weight: T -> int): int
  {
    if ts == [] then 0 else Total(ts[..|ts| - 1], weight) + weight(ts[|ts| - 1])
  }

  lemma {:induction false} TotalUpdate<T>(ts: seq<T>, k: nat, t: T, weight: T -> int)
    requires k < |ts|
    ensures Total(ts[k := t], weight) == Total(ts, weight) - weight(ts[k]) + weight(t)
  {
    var last := |ts| - 1;
    if k == last {
      assert ts[k := t][..last] == ts[..last];
    } else {
      TotalUpdate(ts[..last], k, t, weight);
      assert ts[k := t][..last] == ts[..last][k := t];
    }
  }

  lemma {:induction false} TotalBounds<T>(ts: seq<T>, weight: T -> int, low: int, high: int)
    requires forall k :: 0 <= k < |ts| ==> low <= weight(ts[k]) <= high
    ensures low * |ts| <= Total(ts, weight) <= high * |ts|
  {
    if ts != [] {
      TotalBounds(ts[..|ts| - 1], weight, low, high);
      assert low * |ts| == low * (|ts| - 1) + low && high * |ts| == high * (|ts| - 1) + high;
    }
  }

  /** Without the k-th task the others stay below their number. */
  lemma TotalBoundWithout<T>(ts: seq<T>, k: nat, weight: T -> int)
    requires k < |ts| && forall j :: 0 <= j < |ts| ==> weight(ts[j]) <= 1
    ensures Total(ts, weight) - weight(ts[k]) <= |ts| - 1
    decreases |ts|
  {
    var last := |ts| - 1;
    if k == last {
      UpperBound(ts[..last], weight);
    } else {
      TotalBoundWithout(ts[..last], k, weight);
    }
  }

  lemma {:induction false} UpperBound<T>(ts: seq<T>, weight: T -> int)
    requires forall j :: 0 <= j < |ts| ==> weight(ts[j]) <= 1
    ensures Total(ts, weight) <= |ts|
  {
    if ts != [] {
      UpperBound(ts[..|ts| - 1], weight);
    }
  }
}
