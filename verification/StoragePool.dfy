/**
 * BoundedStoragePool of include/storage/BoundedStorageMessagePool.h: a slot pool that several tasks use at
 * once without a lock. Each action is one atomic access by one task, so a run is an interleaving.
 */
module StoragePools {
  import opened SlotCounts

  const COUNTER_LIMIT: nat := 0x1_0000

  /** Where a task is; each name is the next atomic access it makes. */
  datatype Pc =
    | Idle
    | Taking(index: nat)                           // acquire: compare-exchange on in_use
    | Counting(index: nat)                         // acquire: active_.fetch_add
    | ReadingPeak(index: nat, count: nat)          // acquire: peak_active_.load
    | RaisingPeak(index: nat, count: nat, seen: nat) // acquire: compare, then compare_exchange_weak on peak_active_
    | Exhausting                                   // acquire: exhaustions_.fetch_add
    | Clearing(index: nat)                         // release: compare-exchange on in_use
    | Discounting                                  // release: active_.fetch_sub

  /** `holds` are the slots whose indices the task has been given and has not yet passed on or released. */
  datatype Task = Task(pc: Pc, holds: set<nat>)

  /** `highest` remembers the largest value any fetch_add on active_ has produced. */
  datatype Pool = Pool(inUse: seq<bool>, active: nat, peak: nat, exhaustions: nat, tasks: seq<Task>, highest: nat)

  datatype Action =
    | Acquire(task: nat)
    | Release(task: nat, index: nat)               // only by the task that holds the slot
    | Pass(task: nat, to: nat, index: nat)         // the index travels to another task in a queue message
    | Advance(task: nat, spurious: bool)           // compare_exchange_weak may fail spuriously

  function With(p: Pool, k: nat, pc: Pc, holds: set<nat>): Pool
    requires k < |p.tasks|
  {
    p.(tasks := p.tasks[k := Task(pc, holds)])
  }

  /** The task's next atomic access. Counters wrap as 16-bit unsigned integers do. */
  function Step(p: Pool, k: nat, spurious: bool): Pool
    requires k < |p.tasks|
  {
    var Task(pc, holds) := p.tasks[k];
    match pc
    case Idle => p
    case Taking(i) =>
      if i >= |p.inUse| then With(p, k, Exhausting, holds)
      else if p.inUse[i] then With(p, k, Taking(i + 1), holds)
      else With(p, k, Counting(i), holds).(inUse := p.inUse[i := true])
    case Counting(i) =>
      var count := (p.active + 1) % COUNTER_LIMIT;
      With(p, k, ReadingPeak(i, count), holds)
        .(active := count, highest := if count > p.highest then count else p.highest)
    case ReadingPeak(i, count) => With(p, k, RaisingPeak(i, count, p.peak), holds)
    case RaisingPeak(i, count, seen) =>
      if count <= seen then With(p, k, Idle, holds + {i})
      else if spurious || p.peak != seen then With(p, k, RaisingPeak(i, count, p.peak), holds)
      else With(p, k, Idle, holds + {i}).(peak := count)
    case Exhausting => With(p, k, Idle, holds).(exhaustions := p.exhaustions + 1)
    case Clearing(i) =>
      if i < |p.inUse| && p.inUse[i] then With(p, k, Discounting, holds).(inUse := p.inUse[i := false])
      else With(p, k, Idle, holds)
    case Discounting => With(p, k, Idle, holds).(active := (p.active - 1) % COUNTER_LIMIT)
  }

  function Next(p: Pool, a: Action): Pool
  {
    if a.task >= |p.tasks| then p
    else
      var t := p.tasks[a.task];
      match a
      case Acquire(k) => if t.pc.Idle? then With(p, k, Taking(0), t.holds) else p
      case Release(k, i) => if t.pc.Idle? && i in t.holds then With(p, k, Clearing(i), t.holds - {i}) else p
      case Pass(k, to, i) =>
        if to < |p.tasks| && to != k && i in t.holds then
          p.(tasks := p.tasks[k := t.(holds := t.holds - {i})]
                             [to := p.tasks[to].(holds := p.tasks[to].holds + {i})])
        else p
      case Advance(k, spurious) => Step(p, k, spurious)
  }

  predicate Initial(p: Pool)
  {
    && p.inUse == seq(|p.inUse|, i => false) && p.active == p.peak == p.highest == 0
    && |p.inUse| + |p.tasks| < COUNTER_LIMIT && p.tasks != []
    && forall k :: 0 <= k < |p.tasks| ==> p.tasks[k] == Task(Idle, {})
  }

  ghost predicate RunFrom(p: Pool, actions: seq<Action>, pools: seq<Pool>)
  {
    && |pools| == |actions| + 1
    && pools[0] == p
    && forall i :: 0 <= i < |actions| ==> pools[i + 1] == Next(pools[i], actions[i])
  }

  // ----- ownership ---------------------------------------------------------------------------------

  /** The slot the task is working on between taking and handing out, or between being asked to release and clearing. */
  function InHand(pc: Pc): set<nat>
  {
    match pc
    case Counting(i) => {i}
    case ReadingPeak(i, _) => {i}
    case RaisingPeak(i, _, _) => {i}
    case Clearing(i) => {i}
    case _ => {}
  }

  function Claims(t: Task): set<nat> { t.holds + InHand(t.pc) }

  ghost predicate Claimed(p: Pool, i: nat)
  {
    exists k :: 0 <= k < |p.tasks| && i in Claims(p.tasks[k])
  }

  ghost predicate ClaimsInUse(slots: seq<bool>, t: Task)
  {
    && t.holds !! InHand(t.pc)
    && forall i: nat :: i in Claims(t) ==> i < |slots| && slots[i]
  }

  /** Every slot in use has exactly one owner, and only slots in use have one. */
  ghost predicate Owned(p: Pool)
  {
    && (forall k :: 0 <= k < |p.tasks| ==> ClaimsInUse(p.inUse, p.tasks[k]))
    && (forall k, l :: 0 <= k < l < |p.tasks| ==> Claims(p.tasks[k]) !! Claims(p.tasks[l]))
    && (forall i :: 0 <= i < |p.inUse| && p.inUse[i] ==> Claimed(p, i))
  }

  // ----- accounting --------------------------------------------------------------------------------

  /** How far the task's pending access keeps the counter away from the slots. */
  function Skew(t: Task): int
  {
    if t.pc.Counting? then -1 else if t.pc.Discounting? then 1 else 0
  }

  function Skews(ts: seq<Task>): int
  {
    Total(ts, Skew)
  }

  ghost predicate CountingApart(slots: seq<bool>, ts: seq<Task>)
  {
    && (forall k :: 0 <= k < |ts| && ts[k].pc.Counting? ==> ts[k].pc.index < |slots| && slots[ts[k].pc.index])
    && (forall k, l :: 0 <= k < l < |ts| && ts[k].pc.Counting? && ts[l].pc.Counting? ==>
          ts[k].pc.index != ts[l].pc.index)
  }

  /** Each task about to count has its own occupied slot, so the counter plus what is pending covers them all. */
  lemma {:induction false} SkewsCovered(slots: seq<bool>, ts: seq<Task>)
    requires CountingApart(slots, ts)
    ensures Occupied(slots) + Skews(ts) >= 0
    decreases |ts|
  {
    if ts != [] {
      var last := |ts| - 1;
      if ts[last].pc.Counting? {
        var i := ts[last].pc.index;
        OccupiedUpdate(slots, i, false);
        SkewsCovered(slots[i := false], ts[..last]);
      } else {
        SkewsCovered(slots, ts[..last]);
      }
    }
  }

  /** A pending fetch_sub always has something to take: the counter never underflows. */
  lemma DiscountedStaysPositive(p: Pool, k: nat)
    requires Owned(p) && k < |p.tasks| && p.tasks[k].pc.Discounting?
    ensures Occupied(p.inUse) + Skews(p.tasks) >= 1
  {
    var ts := p.tasks[k := Task(Idle, {})];
    TotalUpdate(p.tasks, k, Task(Idle, {}), Skew);
    forall l | 0 <= l < |ts| && ts[l].pc.Counting?
      ensures ts[l].pc.index in Claims(p.tasks[l])
    {
      assert ClaimsInUse(p.inUse, p.tasks[l]);
    }
    SkewsCovered(p.inUse, ts);
  }

  /** A task still working to make the peak at least `count`. */
  predicate Raising(t: Task, count: nat)
  {
    || (t.pc.ReadingPeak? && t.pc.count == count)
    || (t.pc.RaisingPeak? && t.pc.count == count)
  }

  predicate PeakSeen(pc: Pc, peak: nat, highest: nat)
  {
    && (pc.ReadingPeak? || pc.RaisingPeak? ==> pc.count <= highest)
    && (pc.RaisingPeak? ==> pc.seen <= peak)
  }

  ghost predicate Accounted(p: Pool)
  {
    && |p.inUse| + |p.tasks| < COUNTER_LIMIT
    && p.active == Occupied(p.inUse) + Skews(p.tasks)
    && p.active <= p.highest < |p.inUse| + |p.tasks|
    && p.peak <= p.highest
    && (forall k :: 0 <= k < |p.tasks| ==> PeakSeen(p.tasks[k].pc, p.peak, p.highest))
    && (p.highest > p.peak ==> exists k :: 0 <= k < |p.tasks| && Raising(p.tasks[k], p.highest))
  }

  // ----- every step keeps both -----------------------------------------------------------------------

  /** A step by task `k` that leaves the slots and the task's claims alone keeps ownership. */
  lemma SameClaims(p: Pool, q: Pool, k: nat)
    requires Owned(p) && k < |p.tasks| == |q.tasks| && q.inUse == p.inUse
    requires Claims(q.tasks[k]) == Claims(p.tasks[k]) && q.tasks[k].holds !! InHand(q.tasks[k].pc)
    requires forall l :: 0 <= l < |p.tasks| && l != k ==> q.tasks[l] == p.tasks[l]
    ensures Owned(q)
  {
    forall i | 0 <= i < |q.inUse| && q.inUse[i]
      ensures Claimed(q, i)
    {
      assert Claimed(p, i);
      var l :| 0 <= l < |p.tasks| && i in Claims(p.tasks[l]);
      assert i in Claims(q.tasks[l]);
    }
  }

  lemma TakenSlot(p: Pool, q: Pool, k: nat, i: nat)
    requires Owned(p) && k < |p.tasks| == |q.tasks| && i < |p.inUse| && !p.inUse[i] && q.inUse == p.inUse[i := true]
    requires q.tasks[k] == Task(Counting(i), p.tasks[k].holds) && InHand(p.tasks[k].pc) == {}
    requires forall l :: 0 <= l < |p.tasks| && l != k ==> q.tasks[l] == p.tasks[l]
    ensures Owned(q)
  {
    assert Claims(q.tasks[k]) == Claims(p.tasks[k]) + {i};
    assert i in Claims(q.tasks[k]);
    assert forall l :: 0 <= l < |p.tasks| ==> i !in Claims(p.tasks[l]) by {
      assert forall l :: 0 <= l < |p.tasks| ==> ClaimsInUse(p.inUse, p.tasks[l]);
    }
    forall j | 0 <= j < |q.inUse| && q.inUse[j]
      ensures Claimed(q, j)
    {
      if j != i {
        assert Claimed(p, j);
        var l :| 0 <= l < |p.tasks| && j in Claims(p.tasks[l]);
        assert j in Claims(q.tasks[l]);
      }
    }
  }

  lemma ClearedSlot(p: Pool, q: Pool, k: nat, i: nat)
    requires Owned(p) && k < |p.tasks| == |q.tasks| && i < |p.inUse| && q.inUse == p.inUse[i := false]
    requires p.tasks[k].pc == Clearing(i) && q.tasks[k] == Task(Discounting, p.tasks[k].holds)
    requires forall l :: 0 <= l < |p.tasks| && l != k ==> q.tasks[l] == p.tasks[l]
    ensures Owned(q)
  {
    assert Claims(q.tasks[k]) == Claims(p.tasks[k]) - {i};
    assert i in Claims(p.tasks[k]);
    forall j | 0 <= j < |q.inUse| && q.inUse[j]
      ensures Claimed(q, j)
    {
      assert Claimed(p, j);
      var l :| 0 <= l < |p.tasks| && j in Claims(p.tasks[l]);
      assert j in Claims(q.tasks[l]);
    }
  }

  lemma PassedSlot(p: Pool, k: nat, to: nat, i: nat)
    requires Owned(p) && k < |p.tasks| && to < |p.tasks| && k != to && i in p.tasks[k].holds
    ensures Owned(Next(p, Pass(k, to, i)))
  {
    var q := Next(p, Pass(k, to, i));
    PassedClaims(p, q, k, to, i);
    PassedApart(p, q, k, to, i);
    hide Claims, ClaimsInUse;
    forall j | 0 <= j < |q.inUse| && q.inUse[j]
      ensures Claimed(q, j)
    {
      assert Claimed(p, j);
      var l :| 0 <= l < |p.tasks| && j in Claims(p.tasks[l]);
      assert j in Claims(q.tasks[if j == i then to else l]);
    }
  }

  lemma PassedApart(p: Pool, q: Pool, k: nat, to: nat, i: nat)
    requires Owned(p) && k < |p.tasks| && to < |p.tasks| && k != to && |q.tasks| == |p.tasks|
    requires Claims(q.tasks[k]) == Claims(p.tasks[k]) - {i} && Claims(q.tasks[to]) == Claims(p.tasks[to]) + {i}
    requires forall l :: 0 <= l < |p.tasks| && l != k ==> i !in Claims(p.tasks[l])
    requires forall l :: 0 <= l < |p.tasks| && l != k && l != to ==> Claims(q.tasks[l]) == Claims(p.tasks[l])
    ensures forall l, m :: 0 <= l < m < |q.tasks| ==> Claims(q.tasks[l]) !! Claims(q.tasks[m])
  {
    hide Claims, ClaimsInUse;
    forall l, m | 0 <= l < m < |q.tasks|
      ensures Claims(q.tasks[l]) !! Claims(q.tasks[m])
    {
      assert Claims(p.tasks[l]) !! Claims(p.tasks[m]);
      assert l != k ==> i !in Claims(p.tasks[l]);
      assert m != k ==> i !in Claims(p.tasks[m]);
    }
  }

  lemma PassedClaims(p: Pool, q: Pool, k: nat, to: nat, i: nat)
    requires Owned(p) && k < |p.tasks| && to < |p.tasks| && k != to && i in p.tasks[k].holds
    requires q == Next(p, Pass(k, to, i))
    ensures Claims(q.tasks[k]) == Claims(p.tasks[k]) - {i}
    ensures Claims(q.tasks[to]) == Claims(p.tasks[to]) + {i}
    ensures forall l :: 0 <= l < |p.tasks| && l != k ==> i !in Claims(p.tasks[l])
    ensures forall l :: 0 <= l < |q.tasks| ==> ClaimsInUse(q.inUse, q.tasks[l])
  {
    assert i in Claims(p.tasks[k]);
    assert ClaimsInUse(p.inUse, p.tasks[k]) && ClaimsInUse(p.inUse, p.tasks[to]);
    ClaimedOnce(p, k, i);
  }

  lemma ClaimedOnce(p: Pool, k: nat, i: nat)
    requires Owned(p) && k < |p.tasks| && i in Claims(p.tasks[k])
    ensures forall l :: 0 <= l < |p.tasks| && l != k ==> i !in Claims(p.tasks[l])
  {
    hide Claims;
    forall l | 0 <= l < |p.tasks| && l != k
      ensures i !in Claims(p.tasks[l])
    {
      if l < k {
        assert Claims(p.tasks[l]) !! Claims(p.tasks[k]);
      } else {
        assert Claims(p.tasks[k]) !! Claims(p.tasks[l]);
      }
    }
  }

  lemma OwnedNext(p: Pool, a: Action)
    requires Owned(p)
    ensures Owned(Next(p, a))
  {
    var q, k := Next(p, a), a.task;
    if k < |p.tasks| {
      var t := p.tasks[k];
      match a {
        case Acquire(_) => SameClaims(p, q, k);
        case Release(_, _) => SameClaims(p, q, k);
        case Pass(_, to, i) =>
          if q != p {
            PassedSlot(p, k, to, i);
          }
        case Advance(_, _) =>
          match t.pc {
            case Taking(i) =>
              if i < |p.inUse| && !p.inUse[i] {
                TakenSlot(p, q, k, i);
              } else {
                SameClaims(p, q, k);
              }
            case Clearing(i) =>
              assert ClaimsInUse(p.inUse, t) && i in Claims(t);
              ClearedSlot(p, q, k, i);
            case _ => SameClaims(p, q, k);
          }
      }
    }
  }

  lemma AccountedNext(p: Pool, a: Action)
    requires Owned(p) && Accounted(p)
    ensures Accounted(Next(p, a))
  {
    var k := a.task;
    if k < |p.tasks| {
      if a.Advance? {
        AccountedStep(p, a.spurious, k);
      } else if Next(p, a) != p {
        AccountedRequest(p, a);
      }
    }
  }

  lemma AccountedRequest(p: Pool, a: Action)
    requires Accounted(p) && !a.Advance? && a.task < |p.tasks| && Next(p, a) != p
    ensures Accounted(Next(p, a))
  {
    var q, k := Next(p, a), a.task;
    if a.Pass? {
      PassSkews(p, k, a.to, a.index);
    } else {
      TotalUpdate(p.tasks, k, q.tasks[k], Skew);
    }
    SameRaising(p, q, k);
  }

  lemma PassSkews(p: Pool, k: nat, to: nat, i: nat)
    requires k < |p.tasks| && to < |p.tasks| && k != to && i in p.tasks[k].holds
    ensures Skews(Next(p, Pass(k, to, i)).tasks) == Skews(p.tasks)
  {
    var t, u := p.tasks[k].(holds := p.tasks[k].holds - {i}), p.tasks[to].(holds := p.tasks[to].holds + {i});
    TotalUpdate(p.tasks, k, t, Skew);
    TotalUpdate(p.tasks[k := t], to, u, Skew);
  }

  lemma SameRaising(p: Pool, q: Pool, k: nat)
    requires Accounted(p) && |q.tasks| == |p.tasks| && k < |p.tasks|
    requires q.highest == p.highest && q.peak == p.peak
    requires !Raising(p.tasks[k], p.highest) || Raising(q.tasks[k], p.highest)
    requires forall l :: 0 <= l < |p.tasks| && l != k ==> q.tasks[l].pc == p.tasks[l].pc
    ensures q.highest > q.peak ==> exists l :: 0 <= l < |q.tasks| && Raising(q.tasks[l], q.highest)
  {
    if q.highest > q.peak {
      var l :| 0 <= l < |p.tasks| && Raising(p.tasks[l], p.highest);
      assert Raising(q.tasks[l], q.highest);
    }
  }

  /** The count moved with the slots and nothing about the peak changed. */
  lemma AccountedQuiet(p: Pool, q: Pool, k: nat)
    requires Accounted(p) && k < |p.tasks| == |q.tasks| && q.tasks == p.tasks[k := q.tasks[k]]
    requires q.highest == p.highest && q.peak == p.peak && |q.inUse| == |p.inUse| && q.active <= p.active
    requires q.active == Occupied(q.inUse) + Skews(p.tasks) - Skew(p.tasks[k]) + Skew(q.tasks[k])
    requires Raising(p.tasks[k], p.highest) ==> Raising(q.tasks[k], p.highest)
    requires PeakSeen(q.tasks[k].pc, q.peak, q.highest)
    ensures Accounted(q)
  {
    TotalUpdate(p.tasks, k, q.tasks[k], Skew);
    SameRaising(p, q, k);
  }

  lemma AccountedStep(p: Pool, spurious: bool, k: nat)
    requires Owned(p) && Accounted(p) && k < |p.tasks|
    ensures Accounted(Step(p, k, spurious))
  {
    match p.tasks[k].pc {
      case Idle =>
      case Taking(i) => AccountedTake(p, spurious, k);
      case Counting(i) => AccountedCount(p, spurious, k);
      case ReadingPeak(_, _) => AccountedOther(p, spurious, k);
      case RaisingPeak(i, count, seen) => AccountedRaise(p, spurious, k);
      case Exhausting => AccountedOther(p, spurious, k);
      case Clearing(i) => AccountedClear(p, spurious, k);
      case Discounting => AccountedDiscount(p, spurious, k);
    }
  }

  lemma AccountedOther(p: Pool, spurious: bool, k: nat)
    requires Accounted(p) && k < |p.tasks| && (p.tasks[k].pc.ReadingPeak? || p.tasks[k].pc.Exhausting?)
    ensures Accounted(Step(p, k, spurious))
  {
    assert PeakSeen(p.tasks[k].pc, p.peak, p.highest);
    AccountedQuiet(p, Step(p, k, spurious), k);
  }

  lemma AccountedDiscount(p: Pool, spurious: bool, k: nat)
    requires Owned(p) && Accounted(p) && k < |p.tasks| && p.tasks[k].pc.Discounting?
    ensures Accounted(Step(p, k, spurious))
  {
    DiscountedStaysPositive(p, k);
    AccountedQuiet(p, Step(p, k, spurious), k);
  }

  lemma AccountedTake(p: Pool, spurious: bool, k: nat)
    requires Accounted(p) && k < |p.tasks| && p.tasks[k].pc.Taking?
    ensures Accounted(Step(p, k, spurious))
  {
    var i := p.tasks[k].pc.index;
    if i < |p.inUse| {
      OccupiedUpdate(p.inUse, i, true);
    }
    AccountedQuiet(p, Step(p, k, spurious), k);
  }

  lemma AccountedClear(p: Pool, spurious: bool, k: nat)
    requires Owned(p) && Accounted(p) && k < |p.tasks| && p.tasks[k].pc.Clearing?
    ensures Accounted(Step(p, k, spurious))
  {
    var i := p.tasks[k].pc.index;
    assert ClaimsInUse(p.inUse, p.tasks[k]) && i in Claims(p.tasks[k]);
    OccupiedUpdate(p.inUse, i, false);
    AccountedQuiet(p, Step(p, k, spurious), k);
  }

  lemma AccountedCount(p: Pool, spurious: bool, k: nat)
    requires Accounted(p) && k < |p.tasks| && p.tasks[k].pc.Counting?
    ensures Accounted(Step(p, k, spurious))
  {
    var q := Step(p, k, spurious);
    TotalUpdate(p.tasks, k, q.tasks[k], Skew);
    TotalBoundWithout(p.tasks, k, Skew);
    assert q.active == p.active + 1;
    if q.highest > p.highest {
      assert Raising(q.tasks[k], q.highest);
    } else {
      SameRaising(p, q, k);
    }
  }

  lemma AccountedRaise(p: Pool, spurious: bool, k: nat)
    requires Accounted(p) && k < |p.tasks| && p.tasks[k].pc.RaisingPeak?
    ensures Accounted(Step(p, k, spurious))
    ensures Step(p, k, spurious).peak >= p.peak
  {
    var q := Step(p, k, spurious);
    TotalUpdate(p.tasks, k, q.tasks[k], Skew);
    assert PeakSeen(p.tasks[k].pc, p.peak, p.highest);
    if q.highest > q.peak {
      var l :| 0 <= l < |p.tasks| && Raising(p.tasks[l], p.highest);
      assert Raising(q.tasks[l], q.highest);
    }
  }

  // ----- whole runs ----------------------------------------------------------------------------------

  /**
   * In every interleaving, at every point: every occupied slot has exactly one owner, the counter is the number
   * of occupied slots less the increments and plus the decrements still to come, and it never wraps.
   */
  lemma {:induction false} PoolIsSafe(p: Pool, actions: seq<Action>, pools: seq<Pool>, n: nat)
    requires Initial(p) && RunFrom(p, actions, pools) && n < |pools|
    ensures Owned(pools[n]) && Accounted(pools[n])
  {
    if n == 0 {
      AllFree(|p.inUse|);
      TotalBounds(p.tasks, Skew, 0, 0);
    } else {
      PoolIsSafe(p, actions, pools, n - 1);
      OwnedNext(pools[n - 1], actions[n - 1]);
      AccountedNext(pools[n - 1], actions[n - 1]);
      assert pools[n - 1 + 1] == Next(pools[n - 1], actions[n - 1]);
    }
  }

  /** At rest the counter is exact, and the peak is the largest count any acquisition ever saw. */
  lemma AtRestCountersAreExact(p: Pool, actions: seq<Action>, pools: seq<Pool>, n: nat)
    requires Initial(p) && RunFrom(p, actions, pools) && n < |pools|
    requires forall k :: 0 <= k < |pools[n].tasks| ==> pools[n].tasks[k].pc.Idle?
    ensures pools[n].active == Occupied(pools[n].inUse)
    ensures pools[n].peak == pools[n].highest
  {
    PoolIsSafe(p, actions, pools, n);
    TotalBounds(pools[n].tasks, Skew, 0, 0);
  }

  /** A release by the owner always frees its slot: the compare-exchange that clears it cannot fail. */
  lemma OwnerReleaseAlwaysFrees(p: Pool, actions: seq<Action>, pools: seq<Pool>, n: nat, k: nat, spurious: bool)
    requires Initial(p) && RunFrom(p, actions, pools) && n < |pools| && k < |pools[n].tasks|
    requires pools[n].tasks[k].pc.Clearing?
    ensures Next(pools[n], Advance(k, spurious)).tasks[k].pc == Discounting
    ensures var i := pools[n].tasks[k].pc.index;
            i < |pools[n].inUse| && pools[n].inUse[i] && !Next(pools[n], Advance(k, spurious)).inUse[i]
  {
    PoolIsSafe(p, actions, pools, n);
    assert ClaimsInUse(pools[n].inUse, pools[n].tasks[k]);
    assert pools[n].tasks[k].pc.index in Claims(pools[n].tasks[k]);
  }

  /** The peak only grows. */
  lemma {:induction false} PeakNeverFalls(p: Pool, actions: seq<Action>, pools: seq<Pool>, m: nat, n: nat)
    requires Initial(p) && RunFrom(p, actions, pools) && m <= n < |pools|
    ensures pools[m].peak <= pools[n].peak
    decreases n
  {
    if m < n {
      PeakNeverFalls(p, actions, pools, m, n - 1);
      PoolIsSafe(p, actions, pools, n - 1);
      PeakGrows(pools[n - 1], actions[n - 1]);
      assert pools[n - 1 + 1] == Next(pools[n - 1], actions[n - 1]);
    }
  }

  /** The peak bounds the count of every acquisition that has returned its slot. */
  lemma PeakBoundsCompleted(p: Pool, actions: seq<Action>, pools: seq<Pool>, m: nat, n: nat, k: nat)
    requires Initial(p) && RunFrom(p, actions, pools) && m < n < |pools| && k < |pools[m].tasks|
    requires actions[m].Advance? && actions[m].task == k && pools[m].tasks[k].pc.RaisingPeak?
    requires Next(pools[m], actions[m]).tasks[k].pc.Idle?
    ensures pools[m].tasks[k].pc.count <= pools[n].peak
  {
    PoolIsSafe(p, actions, pools, m);
    assert PeakSeen(pools[m].tasks[k].pc, pools[m].peak, pools[m].highest);
    assert pools[m].tasks[k].pc.count <= Next(pools[m], actions[m]).peak;
    PeakNeverFalls(p, actions, pools, m + 1, n);
  }

  lemma PeakGrows(p: Pool, a: Action)
    requires Accounted(p)
    ensures p.peak <= Next(p, a).peak
  {
    if a.Advance? && a.task < |p.tasks| && p.tasks[a.task].pc.RaisingPeak? {
      AccountedRaise(p, a.spurious, a.task);
    }
  }

  /** The peak can exceed the capacity, by less than the number of tasks. */
  lemma PeakExcessIsBounded(p: Pool, actions: seq<Action>, pools: seq<Pool>, n: nat)
    requires Initial(p) && RunFrom(p, actions, pools) && n < |pools|
    ensures |pools[n].inUse| == |p.inUse| && |pools[n].tasks| == |p.tasks|
    ensures pools[n].peak <= |p.inUse| + |p.tasks| - 1
  {
    PoolIsSafe(p, actions, pools, n);
    SizesStay(p, actions, pools, n);
  }

  lemma {:induction false} SizesStay(p: Pool, actions: seq<Action>, pools: seq<Pool>, n: nat)
    requires RunFrom(p, actions, pools) && n < |pools|
    ensures |pools[n].inUse| == |p.inUse| && |pools[n].tasks| == |p.tasks|
  {
    if n > 0 {
      SizesStay(p, actions, pools, n - 1);
      assert pools[n - 1 + 1] == Next(pools[n - 1], actions[n - 1]);
      NextSizes(pools[n - 1], actions[n - 1]);
    }
  }

  lemma NextSizes(p: Pool, a: Action)
    ensures |Next(p, a).inUse| == |p.inUse| && |Next(p, a).tasks| == |p.tasks|
  {
    if a.task < |p.tasks| && a.Advance? {
      match p.tasks[a.task].pc
      case Taking(_) =>
      case _ =>
    }
  }

  function IsCounting(t: Task): int { if t.pc.Counting? then 1 else 0 }

  function IsDiscounting(t: Task): int { if t.pc.Discounting? then 1 else 0 }

  lemma {:induction false} SkewsSplit(ts: seq<Task>)
    ensures Skews(ts) == Total(ts, IsDiscounting) - Total(ts, IsCounting)
  {
    if ts != [] {
      SkewsSplit(ts[..|ts| - 1]);
    }
  }

  /**
   * Exactly when an acquisition counts past the capacity: when more releases are between their two accesses than
   * there are free slots and other acquisitions about to count.
   */
  lemma CountExceedsIff(p: Pool, actions: seq<Action>, pools: seq<Pool>, n: nat, k: nat, spurious: bool)
    requires Initial(p) && RunFrom(p, actions, pools) && n < |pools| && k < |pools[n].tasks|
    requires pools[n].tasks[k].pc.Counting?
    ensures var q := pools[n];
            Next(q, Advance(k, spurious)).active > |q.inUse| <==>
              Total(q.tasks, IsDiscounting) > |q.inUse| - Occupied(q.inUse) + (Total(q.tasks, IsCounting) - 1)
    ensures |pools[n].inUse| == |p.inUse|
  {
    PoolIsSafe(p, actions, pools, n);
    SizesStay(p, actions, pools, n);
    CountExceedsAt(pools[n], k, spurious);
  }

  lemma CountExceedsAt(q: Pool, k: nat, spurious: bool)
    requires Accounted(q) && k < |q.tasks| && q.tasks[k].pc.Counting?
    ensures Step(q, k, spurious).active > |q.inUse| <==>
              Total(q.tasks, IsDiscounting) > |q.inUse| - Occupied(q.inUse) + (Total(q.tasks, IsCounting) - 1)
  {
    SkewsSplit(q.tasks);
    TotalBoundWithout(q.tasks, k, Skew);
  }

  /** In particular no acquisition counts past the capacity unless some release is between its two accesses. */
  lemma ExcessNeedsHalfRelease(p: Pool, actions: seq<Action>, pools: seq<Pool>, n: nat, k: nat, spurious: bool)
    requires Initial(p) && RunFrom(p, actions, pools) && n < |pools| && k < |pools[n].tasks|
    requires pools[n].tasks[k].pc.Counting?
    requires Next(pools[n], Advance(k, spurious)).active > |p.inUse|
    ensures exists l :: 0 <= l < |pools[n].tasks| && pools[n].tasks[l].pc.Discounting?
  {
    CountExceedsIff(p, actions, pools, n, k, spurious);
    var ts := pools[n].tasks;
    hide Next, Step;
    SomeCounting(ts, k);
    if forall l :: 0 <= l < |ts| ==> !ts[l].pc.Discounting? {
      TotalBounds(ts, IsDiscounting, 0, 0);
    }
  }

  lemma {:induction false} SomeCounting(ts: seq<Task>, k: nat)
    requires k < |ts| && ts[k].pc.Counting?
    ensures Total(ts, IsCounting) >= 1
    decreases |ts|
  {
    var front := ts[..|ts| - 1];
    if k < |front| {
      SomeCounting(front, k);
    } else {
      TotalBounds(front, IsCounting, 0, 1);
    }
  }

  // ----- when the peak can exceed the capacity ---------------------------------------------------------

  /** Some interleaving from `p` leads to `q`. */
  ghost predicate Reaches(p: Pool, q: Pool)
  {
    exists actions, pools :: RunTo(p, actions, pools, q)
  }

  ghost predicate RunTo(p: Pool, actions: seq<Action>, pools: seq<Pool>, q: Pool)
  {
    RunFrom(p, actions, pools) && pools[|actions|] == q
  }

  lemma ReachesSelf(p: Pool)
    ensures Reaches(p, p)
  {
    assert RunTo(p, [], [p], p);
  }

  lemma ReachesNext(p: Pool, q: Pool, a: Action)
    requires Reaches(p, q)
    ensures Reaches(p, Next(q, a))
  {
    var actions, pools :| RunTo(p, actions, pools, q);
    var more, longer := actions + [a], pools + [Next(q, a)];
    forall i | 0 <= i < |more|
      ensures longer[i + 1] == Next(longer[i], more[i])
    {
      if i < |actions| {
        assert longer[i] == pools[i] && longer[i + 1] == pools[i + 1] && more[i] == actions[i];
      }
    }
    assert RunTo(p, more, longer, Next(q, a));
  }

  /** An idle task that nobody disturbs acquires the first free slot, and raises the peak to the new count. */
  lemma AcquireFirstFree(p: Pool, q: Pool, k: nat, i: nat) returns (r: Pool)
    requires Reaches(p, q) && k < |q.tasks| && q.tasks[k].pc.Idle?
    requires i < |q.inUse| && !q.inUse[i] && forall j :: 0 <= j < i ==> q.inUse[j]
    requires q.active + 1 < COUNTER_LIMIT
    ensures Reaches(p, r) && r.inUse == q.inUse[i := true] && r.active == q.active + 1
    ensures r.peak == if q.active + 1 > q.peak then q.active + 1 else q.peak
    ensures r.tasks == q.tasks[k := Task(Idle, q.tasks[k].holds + {i})]
  {
    var go := Advance(k, false);
    ReachesNext(p, q, Acquire(k));
    var taking := ScanTo(p, Next(q, Acquire(k)), k, 0, i);
    var counting := Next(taking, go);
    ReachesNext(p, taking, go);
    assert counting.tasks[k] == Task(Counting(i), q.tasks[k].holds);
    var reading := Next(counting, go);
    ReachesNext(p, counting, go);
    assert reading.tasks[k] == Task(ReadingPeak(i, q.active + 1), q.tasks[k].holds);
    var raising := Next(reading, go);
    ReachesNext(p, reading, go);
    assert raising.tasks[k] == Task(RaisingPeak(i, q.active + 1, q.peak), q.tasks[k].holds);
    r := Next(raising, go);
    ReachesNext(p, raising, go);
  }

  lemma {:induction false} ScanTo(p: Pool, q: Pool, k: nat, from: nat, i: nat) returns (r: Pool)
    requires Reaches(p, q) && k < |q.tasks| && q.tasks[k].pc == Taking(from)
    requires from <= i < |q.inUse| && forall j :: from <= j < i ==> q.inUse[j]
    ensures Reaches(p, r) && r == q.(tasks := q.tasks[k := Task(Taking(i), q.tasks[k].holds)])
    decreases i - from
  {
    if from == i {
      r := q;
    } else {
      ReachesNext(p, q, Advance(k, false));
      r := ScanTo(p, Next(q, Advance(k, false)), k, from + 1, i);
    }
  }

  /** One task can take the first `n` slots of a fresh pool one after the other. */
  lemma {:induction false} Fill(p: Pool, n: nat) returns (q: Pool)
    requires Initial(p) && n <= |p.inUse|
    ensures Reaches(p, q) && |q.inUse| == |p.inUse| && |q.tasks| == |p.tasks|
    ensures forall j :: 0 <= j < |q.inUse| ==> (q.inUse[j] <==> j < n)
    ensures q.active == n && q.peak == n
    ensures q.tasks[0].pc.Idle? && forall j: nat :: j < n ==> j in q.tasks[0].holds
    ensures forall k :: 1 <= k < |q.tasks| ==> q.tasks[k] == Task(Idle, {})
  {
    if n == 0 {
      ReachesSelf(p);
      q := p;
    } else {
      var before := Fill(p, n - 1);
      q := AcquireFirstFree(p, before, 0, n - 1);
    }
  }

  /** With two tasks, a full pool's slot can be taken between the two accesses of its release. */
  lemma Overtake(p: Pool) returns (q: Pool)
    requires Initial(p) && |p.inUse| >= 1 && |p.tasks| >= 2
    ensures Reaches(p, q) && |q.inUse| == |p.inUse| && q.peak == |p.inUse| + 1
  {
    var full := Fill(p, |p.inUse|);
    ReachesNext(p, full, Release(0, 0));
    var clearing := Next(full, Release(0, 0));
    ReachesNext(p, clearing, Advance(0, false));
    var half := Next(clearing, Advance(0, false));
    assert half.inUse == full.inUse[0 := false] && half.active == |p.inUse|;
    q := AcquireFirstFree(p, half, 1, 0);
  }

  ghost predicate CanExceed(p: Pool)
  {
    exists q :: Reaches(p, q) && q.peak > |p.inUse|
  }

  /** The recorded peak can exceed the capacity if and only if there is a slot and there are two tasks. */
  lemma PeakCanExceedIff(p: Pool)
    requires Initial(p)
    ensures CanExceed(p) <==> |p.inUse| >= 1 && |p.tasks| >= 2
  {
    if |p.inUse| >= 1 && |p.tasks| >= 2 {
      var q := Overtake(p);
    } else if CanExceed(p) {
      var q :| Reaches(p, q) && q.peak > |p.inUse|;
      var actions, pools :| RunTo(p, actions, pools, q);
      PeakExcessIsBounded(p, actions, pools, |actions|);
      NoSlotsNoCount(p, actions, pools, |actions|);
    }
  }

  lemma CountsASlot(inUse: seq<bool>, t: Task)
    requires ClaimsInUse(inUse, t)
    ensures t.pc.Counting? ==> t.pc.index < |inUse|
  {
    assert t.pc.Counting? ==> t.pc.index in Claims(t);
  }

  lemma {:induction false} NoSlotsNoCount(p: Pool, actions: seq<Action>, pools: seq<Pool>, n: nat)
    requires Initial(p) && RunFrom(p, actions, pools) && n < |pools|
    ensures p.inUse == [] ==> pools[n].highest == 0 && pools[n].peak == 0
  {
    PoolIsSafe(p, actions, pools, n);
    if n > 0 && p.inUse == [] {
      NoSlotsNoCount(p, actions, pools, n - 1);
      PoolIsSafe(p, actions, pools, n - 1);
      SizesStay(p, actions, pools, n - 1);
      var q, a := pools[n - 1], actions[n - 1];
      assert pools[n - 1 + 1] == Next(q, a);
      if a.task < |q.tasks| {
        CountsASlot(q.inUse, q.tasks[a.task]);
      }
    }
  }

  function Advances(p: Pool, k: nat, n: nat): Pool
    decreases n
  {
    if n == 0 then p else Advances(Next(p, Advance(k, false)), k, n - 1)
  }

  // ----- exhaustion ----------------------------------------------------------------------------------

  /** An acquisition that nobody disturbs in a full pool fails, and all that changes is the count of exhaustions. */
  lemma ExhaustedWhenFull(p: Pool, k: nat)
    requires k < |p.tasks| && p.tasks[k].pc.Idle? && forall j :: 0 <= j < |p.inUse| ==> p.inUse[j]
    ensures Advances(Next(p, Acquire(k)), k, |p.inUse| + 2) == p.(exhaustions := p.exhaustions + 1)
  {
    ScanFull(Next(p, Acquire(k)), k, 0);
    assert p.tasks == p.tasks[k := Task(Idle, p.tasks[k].holds)];
  }

  lemma {:induction false} ScanFull(p: Pool, k: nat, i: nat)
    requires k < |p.tasks| && p.tasks[k].pc == Taking(i) && i <= |p.inUse| && forall j :: i <= j < |p.inUse| ==> p.inUse[j]
    ensures Advances(p, k, |p.inUse| - i + 2) ==
              With(p, k, Idle, p.tasks[k].holds).(exhaustions := p.exhaustions + 1)
    decreases |p.inUse| - i
  {
    var q := Next(p, Advance(k, false));
    if i < |p.inUse| {
      ScanFull(q, k, i + 1);
    } else {
      assert Advances(p, k, 2) == Advances(q, k, 1) == Next(q, Advance(k, false));
    }
  }

  /** In step `m` the task tries slot `i` and finds it in use. */
  ghost predicate Refused(actions: seq<Action>, pools: seq<Pool>, m: nat, k: nat, i: nat)
    requires |pools| == |actions| + 1
  {
    && m < |actions| && actions[m].Advance? && actions[m].task == k && k < |pools[m].tasks|
    && pools[m].tasks[k].pc == Taking(i) && i < |pools[m].inUse| && pools[m].inUse[i]
  }

  ghost predicate RefusedSince(actions: seq<Action>, pools: seq<Pool>, a: nat, n: nat, k: nat, i: nat)
    requires |pools| == |actions| + 1
  {
    exists m: nat :: a < m < n && Refused(actions, pools, m, k, i)
  }

  /** The acquisition begun in step `a` has not returned by `n`, and has been refused by the first `i` slots since. */
  ghost predicate RefusedBy(actions: seq<Action>, pools: seq<Pool>, a: nat, n: nat, k: nat, i: nat)
    requires |pools| == |actions| + 1
  {
    && a < n <= |actions| && actions[a] == Acquire(k)
    && (forall m :: a < m < n ==>
          k < |pools[m].tasks| && (pools[m].tasks[k].pc.Taking? || pools[m].tasks[k].pc.Exhausting?))
    && (forall j: nat :: j < i ==> RefusedSince(actions, pools, a, n, k, j))
  }

  /**
   * In every interleaving, a scan has been refused by every slot before the one it is at, each in use at the moment it
   * was tried; so an acquisition that reports exhaustion has met every slot in use.
   */
  lemma {:induction false} ExhaustedMeetsAllInUse(p: Pool, actions: seq<Action>, pools: seq<Pool>, n: nat, k: nat)
    requires Initial(p) && RunFrom(p, actions, pools) && n < |pools| && k < |pools[n].tasks|
    ensures |pools[n].inUse| == |p.inUse| && |pools[n].tasks| == |p.tasks|
    ensures pools[n].tasks[k].pc.Taking? ==>
              exists a: nat :: RefusedBy(actions, pools, a, n, k, pools[n].tasks[k].pc.index)
    ensures pools[n].tasks[k].pc.Exhausting? ==> exists a: nat :: RefusedBy(actions, pools, a, n, k, |p.inUse|)
  {
    if n > 0 {
      var s, t, b := pools[n - 1], pools[n], actions[n - 1];
      assert pools[n - 1 + 1] == Next(s, b);
      ScanGoesOn(s, b, k);
      ExhaustedMeetsAllInUse(p, actions, pools, n - 1, k);
      hide Next;
      if t.tasks[k].pc.Taking? || t.tasks[k].pc.Exhausting? {
        if b == Acquire(k) && s.tasks[k].pc.Idle? {
          assert RefusedBy(actions, pools, n - 1, n, k, 0);
        } else {
          var i := if s.tasks[k].pc.Taking? then s.tasks[k].pc.index else |p.inUse|;
          var a: nat :| RefusedBy(actions, pools, a, n - 1, k, i);
          RefusedNext(actions, pools, a, n - 1, n, k, i);
          if t.tasks[k].pc.Exhausting? {
            RefusedByFewer(actions, pools, a, n, k, i, |p.inUse|);
          }
        }
      }
    }
  }

  /** How a task comes to scan a slot or to report exhaustion. */
  lemma ScanGoesOn(s: Pool, b: Action, k: nat)
    ensures |Next(s, b).tasks| == |s.tasks| && |Next(s, b).inUse| == |s.inUse|
    ensures k < |s.tasks| ==>
              var pc, next := s.tasks[k].pc, Next(s, b).tasks[k].pc;
              next.Taking? || next.Exhausting? ==>
                || (b == Acquire(k) && pc.Idle? && next == Taking(0))
                || (pc == next && !(b.Advance? && b.task == k))
                || (b.Advance? && b.task == k && pc.Taking?
                    && if pc.index < |s.inUse| then s.inUse[pc.index] && next == Taking(pc.index + 1) else next.Exhausting?)
  {
    NextSizes(s, b);
  }

  lemma RefusedByFewer(actions: seq<Action>, pools: seq<Pool>, a: nat, n: nat, k: nat, i: nat, j: nat)
    requires |pools| == |actions| + 1 && RefusedBy(actions, pools, a, n, k, i) && j <= i
    ensures RefusedBy(actions, pools, a, n, k, j)
  {
  }

  lemma RefusedNext(actions: seq<Action>, pools: seq<Pool>, a: nat, m: nat, n: nat, k: nat, i: nat)
    requires |pools| == |actions| + 1 && m < |actions| && n == m + 1 && RefusedBy(actions, pools, a, m, k, i)
    requires k < |pools[m].tasks| && (pools[m].tasks[k].pc.Taking? || pools[m].tasks[k].pc.Exhausting?)
    ensures RefusedBy(actions, pools, a, n, k, i)
    ensures Refused(actions, pools, m, k, i) ==> RefusedBy(actions, pools, a, n, k, i + 1)
  {
    forall j: nat | RefusedSince(actions, pools, a, m, k, j)
      ensures RefusedSince(actions, pools, a, n, k, j)
    {
      var l: nat :| a < l < m && Refused(actions, pools, l, k, j);
      assert a < l < n;
    }
    if Refused(actions, pools, m, k, i) {
      assert RefusedSince(actions, pools, a, n, k, i);
    }
  }

  /**
   * One fresh slot and two tasks: the first acquires it, and the second takes it between the two halves of the
   * first one's release.
   */
  lemma PeakCanExceedCapacity(p: Pool)
    requires p == Pool([false], 0, 0, 0, [Task(Idle, {}), Task(Idle, {})], 0)
    ensures Initial(p)
    ensures var held := Advances(Next(p, Acquire(0)), 0, 4);
            var half := Advances(Next(held, Release(0, 0)), 0, 1);
            var overtaken := Advances(Next(half, Acquire(1)), 1, 4);
            && held.inUse == [true] && held.active == held.peak == 1
            && half.inUse == [false] && half.active == 1
            && |overtaken.tasks| == 2
            && overtaken.inUse == [true] && overtaken.tasks[1] == Task(Idle, {0}) && overtaken.peak == 2
  {
    var held := Pool([true], 1, 1, 0, [Task(Idle, {0}), Task(Idle, {})], 1);
    FirstHolds(p, held);
    var half := Pool([false], 1, 1, 0, [Task(Discounting, {}), Task(Idle, {})], 1);
    FirstHalfReleases(held, half);
    SecondOvertakes(half);
  }

  lemma FirstHolds(p: Pool, held: Pool)
    requires p == Pool([false], 0, 0, 0, [Task(Idle, {}), Task(Idle, {})], 0)
    requires held == Pool([true], 1, 1, 0, [Task(Idle, {0}), Task(Idle, {})], 1)
    ensures Advances(Next(p, Acquire(0)), 0, 4) == held
  {
    var p1 := Next(p, Acquire(0));
    var p2 := Next(p1, Advance(0, false));
    assert p2.tasks == [Task(Counting(0), {}), Task(Idle, {})];
    var p3 := Next(p2, Advance(0, false));
    assert p3.tasks == [Task(ReadingPeak(0, 1), {}), Task(Idle, {})];
    var p4 := Next(p3, Advance(0, false));
    assert p4.tasks == [Task(RaisingPeak(0, 1, 0), {}), Task(Idle, {})];
    assert {} + {0} == {0};
    assert Next(p4, Advance(0, false)) == held;
    assert Advances(p1, 0, 4) == Advances(p2, 0, 3) == Advances(p3, 0, 2) == Advances(p4, 0, 1);
  }

  lemma FirstHalfReleases(held: Pool, half: Pool)
    requires held == Pool([true], 1, 1, 0, [Task(Idle, {0}), Task(Idle, {})], 1)
    requires half == Pool([false], 1, 1, 0, [Task(Discounting, {}), Task(Idle, {})], 1)
    ensures Advances(Next(held, Release(0, 0)), 0, 1) == half
  {
    assert {0} - {0} == {};
    var p1 := Next(held, Release(0, 0));
    assert p1.tasks == [Task(Clearing(0), {}), Task(Idle, {})];
    assert Next(p1, Advance(0, false)) == half;
  }

  lemma SecondOvertakes(half: Pool)
    requires half == Pool([false], 1, 1, 0, [Task(Discounting, {}), Task(Idle, {})], 1)
    ensures var overtaken := Advances(Next(half, Acquire(1)), 1, 4);
            |overtaken.tasks| == 2
            && overtaken.inUse == [true] && overtaken.tasks[1] == Task(Idle, {0}) && overtaken.peak == 2
  {
    var p1 := Next(half, Acquire(1));
    var p2 := Next(p1, Advance(1, false));
    assert p2.tasks == [Task(Discounting, {}), Task(Counting(0), {})];
    var p3 := Next(p2, Advance(1, false));
    assert p3.tasks == [Task(Discounting, {}), Task(ReadingPeak(0, 2), {})];
    var p4 := Next(p3, Advance(1, false));
    assert p4.tasks == [Task(Discounting, {}), Task(RaisingPeak(0, 2, 1), {})];
    assert {} + {0} == {0};
    var p5 := Next(p4, Advance(1, false));
    assert p5.tasks == [Task(Discounting, {}), Task(Idle, {0})];
    assert Advances(p4, 1, 1) == Advances(p5, 1, 0) == p5;
    assert Advances(p1, 1, 4) == Advances(p2, 1, 3) == Advances(p3, 1, 2) == Advances(p4, 1, 1);
  }
}
