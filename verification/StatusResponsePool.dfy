/**
 * StatusResponsePool of include/api/StatusResponsePool.h: pooled response bodies handed out as move-only
 * leases that carry the slot's generation. Each action is one atomic access by one task.
 */
module StatusResponsePools {
  import opened Bytes
  import opened SlotCounts

  /** A lease variable: null, or bound to the pool's slot `index` at `generation`. */
  datatype Lease = Null | Bound(index: nat, generation: u32, size: nat)

  /** Where a task is; each name is the next atomic access it makes. `into`, `from` and `of` are lease variables. */
  datatype Pc =
    | Idle
    | Taking(into: nat, index: nat)                      // acquire: compare-exchange on in_use
    | Stamping(into: nat, index: nat)                    // acquire: generation.fetch_add
    | Counting(into: nat, index: nat, stamp: u32)        // acquire: active_.fetch_add
    | Exhausting                                         // acquire: exhaustions_.fetch_add
    | Checking(of: nat, next: Follow)                    // release: generation.load and compare
    | Clearing(of: nat, next: Follow)                    // release: compare-exchange on in_use
    | Discounting(of: nat, next: Follow)                 // release: active_.fetch_sub

  /** What the task does when the release is done: nothing, or take over the lease of another variable. */
  datatype Follow = Return | MoveFrom(other: nat)

  datatype Task = Task(pc: Pc, leases: seq<Lease>)

  datatype Pool = Pool(inUse: seq<bool>, generation: seq<u32>, active: nat, exhaustions: nat, tasks: seq<Task>)

  datatype Action =
    | Acquire(task: nat, into: nat)          // construct a lease in a null variable
    | Release(task: nat, of: nat)            // explicit release, or the destructor
    | Assign(task: nat, to: nat, from: nat)  // move assignment between two variables of the task
    | Hand(task: nat, from: nat, other: nat, to: nat) // move construction into a null variable of another task
    | Advance(task: nat)

  function With(p: Pool, k: nat, pc: Pc, leases: seq<Lease>): Pool
    requires k < |p.tasks|
  {
    p.(tasks := p.tasks[k := Task(pc, leases)])
  }

  /** The variable is nulled, and takes over the other lease if one follows. */
  function Finished(leases: seq<Lease>, of: nat, next: Follow): seq<Lease>
    requires of < |leases|
    requires next.MoveFrom? ==> next.other < |leases|
  {
    match next
    case Return => leases[of := Null]
    case MoveFrom(from) => leases[of := leases[from]][from := Null]
  }

  /** The variables that the task's control point names exist. */
  predicate InRange(t: Task)
  {
    match t.pc
    case Taking(into, _) => into < |t.leases| && t.leases[into].Null?
    case Stamping(into, _) => into < |t.leases| && t.leases[into].Null?
    case Counting(into, _, _) => into < |t.leases| && t.leases[into].Null?
    case Checking(of, next) => ReleaseInRange(t.leases, of, next)
    case Clearing(of, next) => ReleaseInRange(t.leases, of, next)
    case Discounting(of, next) => ReleaseInRange(t.leases, of, next)
    case _ => true
  }

  predicate ReleaseInRange(leases: seq<Lease>, of: nat, next: Follow)
  {
    && of < |leases| && leases[of].Bound?
    && (next.MoveFrom? ==> next.other < |leases| && next.other != of)
  }

  /** The task's next atomic access. The counters are 32-bit unsigned and wrap. */
  function Step(p: Pool, k: nat): Pool
    requires k < |p.tasks| && InRange(p.tasks[k]) && |p.generation| == |p.inUse|
  {
    var Task(pc, leases) := p.tasks[k];
    match pc
    case Idle => p
    case Taking(v, i) =>
      if i >= |p.inUse| then With(p, k, Exhausting, leases)
      else if p.inUse[i] then With(p, k, Taking(v, i + 1), leases)
      else With(p, k, Stamping(v, i), leases).(inUse := p.inUse[i := true])
    case Stamping(v, i) =>
      if i >= |p.inUse| then p
      else
        var stamp := (p.generation[i] + 1) % U32_LIMIT;
        With(p, k, Counting(v, i, stamp), leases).(generation := p.generation[i := stamp])
    case Counting(v, i, stamp) =>
      With(p, k, Idle, leases[v := Bound(i, stamp, 0)]).(active := (p.active + 1) % U32_LIMIT)
    case Exhausting => With(p, k, Idle, leases).(exhaustions := p.exhaustions + 1)
    case Checking(v, next) =>
      var i := leases[v].index;
      if i >= |p.inUse| || p.generation[i] != leases[v].generation then With(p, k, Idle, Finished(leases, v, next))
      else With(p, k, Clearing(v, next), leases)
    case Clearing(v, next) =>
      var i := leases[v].index;
      if i < |p.inUse| && p.inUse[i] then With(p, k, Discounting(v, next), leases).(inUse := p.inUse[i := false])
      else With(p, k, Idle, Finished(leases, v, next))
    case Discounting(v, next) =>
      With(p, k, Idle, Finished(leases, v, next)).(active := (p.active - 1) % U32_LIMIT)
  }

  /** Requests start only in an idle task, and name variables the task has. */
  predicate Legal(p: Pool, a: Action)
  {
    && a.task < |p.tasks|
    && var t := p.tasks[a.task];
       match a
       case Acquire(_, into) => t.pc.Idle? && into < |t.leases| && t.leases[into].Null?
       case Release(_, of) => t.pc.Idle? && of < |t.leases|
       case Assign(_, to, from) => t.pc.Idle? && to < |t.leases| && from < |t.leases|
       case Hand(_, from, other, to) =>
         && t.pc.Idle? && from < |t.leases|
         && other < |p.tasks| && other != a.task && p.tasks[other].pc.Idle?
         && to < |p.tasks[other].leases| && p.tasks[other].leases[to].Null?
       case Advance(_) => true
  }

  predicate Shape(p: Pool)
  {
    && |p.generation| == |p.inUse|
    && forall k :: 0 <= k < |p.tasks| ==> InRange(p.tasks[k])
  }

  function Next(p: Pool, a: Action): Pool
    requires Shape(p) && Legal(p, a)
  {
    var t := p.tasks[a.task];
    match a
    case Acquire(k, into) => With(p, k, Taking(into, 0), t.leases)
    case Release(k, of) => if t.leases[of].Null? then p else With(p, k, Checking(of, Return), t.leases)
    case Assign(k, to, from) =>
      if to == from then p
      else if t.leases[to].Null? then With(p, k, Idle, Finished(t.leases, to, MoveFrom(from)))
      else With(p, k, Checking(to, MoveFrom(from)), t.leases)
    case Hand(k, from, other, to) =>
      var u := p.tasks[other];
      p.(tasks := p.tasks[k := Task(Idle, t.leases[from := Null])]
                         [other := Task(Idle, u.leases[to := t.leases[from]])])
    case Advance(k) => Step(p, k)
  }

  predicate Initial(p: Pool)
  {
    && p.inUse == seq(|p.inUse|, i => false) && |p.generation| == |p.inUse| && p.active == 0
    && |p.inUse| + |p.tasks| < U32_LIMIT
    && forall k :: 0 <= k < |p.tasks| ==> p.tasks[k].pc.Idle? && NoLeases(p.tasks[k].leases)
  }

  predicate NoLeases(leases: seq<Lease>)
  {
    forall v :: 0 <= v < |leases| ==> leases[v].Null?
  }

  ghost predicate RunFrom(p: Pool, actions: seq<Action>, pools: seq<Pool>)
  {
    && |pools| == |actions| + 1
    && pools[0] == p
    && forall i :: 0 <= i < |actions| ==> Follows(pools[i], actions[i], pools[i + 1])
  }

  ghost predicate Follows(p: Pool, a: Action, q: Pool)
  {
    Shape(p) ==> Legal(p, a) && q == Next(p, a)
  }

  // ----- ownership ---------------------------------------------------------------------------------

  /** A lease variable of a task. */
  datatype Place = Place(task: nat, variable: nat)

  /** The slot that a variable owns: bound and not yet cleared, or being acquired into it. */
  function SlotOf(t: Task, v: nat): Option<nat>
    requires v < |t.leases|
  {
    match t.pc
    case Stamping(into, i) => if into == v then Some(i) else LeaseSlot(t.leases[v])
    case Counting(into, i, _) => if into == v then Some(i) else LeaseSlot(t.leases[v])
    case Discounting(of, _) => if of == v then None else LeaseSlot(t.leases[v])
    case _ => LeaseSlot(t.leases[v])
  }

  function LeaseSlot(l: Lease): Option<nat>
  {
    if l.Bound? then Some(l.index) else None
  }

  /** The generation the variable carries is the slot's. */
  ghost predicate Current(t: Task, v: nat, generation: seq<u32>)
    requires v < |t.leases|
  {
    match SlotOf(t, v)
    case None => true
    case Some(i) =>
      && i < |generation|
      && (t.leases[v].Bound? ==> t.leases[v].generation == generation[i])
      && (t.pc.Counting? && t.pc.into == v ==> t.pc.stamp == generation[i])
  }

  /** The occupied slots and the variables that own one correspond one to one; `owner` is the correspondence. */
  ghost predicate Owned(p: Pool, owner: seq<Option<Place>>)
  {
    && Shape(p) && |owner| == |p.inUse|
    && (forall i :: 0 <= i < |owner| ==> (owner[i].Some? <==> p.inUse[i]))
    && (forall i :: 0 <= i < |owner| && owner[i].Some? ==> Owns(p.tasks, owner[i].value, i))
    && (forall k: nat, v: nat :: k < |p.tasks| && v < |p.tasks[k].leases| ==>
          OwnerKnown(p.tasks[k], owner, k, v) && Current(p.tasks[k], v, p.generation))
  }

  ghost predicate Owns(ts: seq<Task>, at: Place, i: nat)
  {
    at.task < |ts| && at.variable < |ts[at.task].leases| && SlotOf(ts[at.task], at.variable) == Some(i)
  }

  ghost predicate OwnerKnown(t: Task, owner: seq<Option<Place>>, k: nat, v: nat)
    requires v < |t.leases|
  {
    match SlotOf(t, v)
    case None => true
    case Some(i) => i < |owner| && owner[i] == Some(Place(k, v))
  }

  function Moved(owner: seq<Option<Place>>, lease: Lease, at: Place): seq<Option<Place>>
  {
    if lease.Bound? && lease.index < |owner| then owner[lease.index := Some(at)] else owner
  }

  /** Who owns what after the action. */
  function NextOwner(p: Pool, a: Action, owner: seq<Option<Place>>): seq<Option<Place>>
    requires Shape(p) && Legal(p, a) && |owner| == |p.inUse|
  {
    var t := p.tasks[a.task];
    match a
    case Acquire(_, _) => owner
    case Release(_, _) => owner
    case Assign(k, to, from) =>
      if to != from && t.leases[to].Null? then Moved(owner, t.leases[from], Place(k, to)) else owner
    case Hand(_, from, other, to) => Moved(owner, t.leases[from], Place(other, to))
    case Advance(k) => StepOwner(p, k, owner)
  }

  function StepOwner(p: Pool, k: nat, owner: seq<Option<Place>>): seq<Option<Place>>
    requires k < |p.tasks| && InRange(p.tasks[k]) && |owner| == |p.inUse|
  {
    var Task(pc, leases) := p.tasks[k];
    match pc
    case Taking(v, i) => if i < |owner| && !p.inUse[i] then owner[i := Some(Place(k, v))] else owner
    case Clearing(v, _) =>
      var i := leases[v].index;
      if i < |owner| then owner[i := None] else owner
    case Discounting(v, next) =>
      if next.MoveFrom? then Moved(owner, leases[next.other], Place(k, v)) else owner
    case _ => owner
  }

  lemma OwnedRequest(p: Pool, a: Action, owner: seq<Option<Place>>)
    requires Owned(p, owner) && Legal(p, a) && (a.Acquire? || a.Release?)
    ensures Owned(Next(p, a), owner)
  {
    var q, k := Next(p, a), a.task;
    SameSlots(p, q, k, owner);
  }

  /** The step of task `k` leaves the slots and who owns what alone. */
  lemma SameSlots(p: Pool, q: Pool, k: nat, owner: seq<Option<Place>>)
    requires Owned(p, owner) && k < |p.tasks| == |q.tasks| && q.inUse == p.inUse && q.generation == p.generation
    requires |q.tasks[k].leases| == |p.tasks[k].leases| && InRange(q.tasks[k])
    requires forall v :: 0 <= v < |p.tasks[k].leases| ==>
               && SlotOf(q.tasks[k], v) == SlotOf(p.tasks[k], v)
               && (Current(p.tasks[k], v, p.generation) ==> Current(q.tasks[k], v, p.generation))
    requires forall l :: 0 <= l < |p.tasks| && l != k ==> q.tasks[l] == p.tasks[l]
    ensures Owned(q, owner)
  {
    forall i | 0 <= i < |owner| && owner[i].Some?
      ensures Owns(q.tasks, owner[i].value, i)
    {
      assert Owns(p.tasks, owner[i].value, i);
    }
    forall l: nat, v: nat | l < |q.tasks| && v < |q.tasks[l].leases|
      ensures OwnerKnown(q.tasks[l], owner, l, v) && Current(q.tasks[l], v, q.generation)
    {
      assert OwnerKnown(p.tasks[l], owner, l, v) && Current(p.tasks[l], v, p.generation);
    }
  }

  lemma OwnedTake(p: Pool, k: nat, owner: seq<Option<Place>>)
    requires Owned(p, owner) && k < |p.tasks| && p.tasks[k].pc.Taking?
    ensures Owned(Step(p, k), StepOwner(p, k, owner))
  {
    var q, o := Step(p, k), StepOwner(p, k, owner);
    var v, i := p.tasks[k].pc.into, p.tasks[k].pc.index;
    if i < |p.inUse| && !p.inUse[i] {
      forall j | 0 <= j < |o| && o[j].Some?
        ensures Owns(q.tasks, o[j].value, j)
      {
        if j != i {
          assert Owns(p.tasks, owner[j].value, j);
        }
      }
      forall l: nat, w: nat | l < |q.tasks| && w < |q.tasks[l].leases|
        ensures OwnerKnown(q.tasks[l], o, l, w) && Current(q.tasks[l], w, q.generation)
      {
        assert OwnerKnown(p.tasks[l], owner, l, w) && Current(p.tasks[l], w, p.generation);
      }
    } else {
      SameSlots(p, q, k, owner);
    }
  }

  lemma OwnedClear(p: Pool, k: nat, owner: seq<Option<Place>>)
    requires Owned(p, owner) && k < |p.tasks| && p.tasks[k].pc.Clearing?
    ensures Owned(Step(p, k), StepOwner(p, k, owner))
    ensures Step(p, k).tasks[k].pc.Discounting?
  {
    var q, o := Step(p, k), StepOwner(p, k, owner);
    var v := p.tasks[k].pc.of;
    var i := p.tasks[k].leases[v].index;
    assert OwnerKnown(p.tasks[k], owner, k, v);
    forall j | 0 <= j < |o| && o[j].Some?
      ensures Owns(q.tasks, o[j].value, j)
    {
      assert Owns(p.tasks, owner[j].value, j);
    }
    forall l: nat, w: nat | l < |q.tasks| && w < |q.tasks[l].leases|
      ensures OwnerKnown(q.tasks[l], o, l, w) && Current(q.tasks[l], w, q.generation)
    {
      assert OwnerKnown(p.tasks[l], owner, l, w) && Current(p.tasks[l], w, p.generation);
    }
  }

  lemma OwnedStamp(p: Pool, k: nat, owner: seq<Option<Place>>)
    requires Owned(p, owner) && k < |p.tasks| && p.tasks[k].pc.Stamping?
    ensures Owned(Step(p, k), owner)
  {
    var q := Step(p, k);
    var v, i := p.tasks[k].pc.into, p.tasks[k].pc.index;
    assert OwnerKnown(p.tasks[k], owner, k, v);
    forall j | 0 <= j < |owner| && owner[j].Some?
      ensures Owns(q.tasks, owner[j].value, j)
    {
      assert Owns(p.tasks, owner[j].value, j);
    }
    forall l: nat, w: nat | l < |q.tasks| && w < |q.tasks[l].leases|
      ensures OwnerKnown(q.tasks[l], owner, l, w) && Current(q.tasks[l], w, q.generation)
    {
      assert OwnerKnown(p.tasks[l], owner, l, w) && Current(p.tasks[l], w, p.generation);
    }
  }

  /** A lease moves from one variable to another: what happens to ownership. */
  lemma MovedOwner(p: Pool, q: Pool, from: Place, to: Place, owner: seq<Option<Place>>)
    requires Owned(p, owner) && |q.tasks| == |p.tasks| && q.inUse == p.inUse && q.generation == p.generation
    requires forall l :: 0 <= l < |p.tasks| ==> |q.tasks[l].leases| == |p.tasks[l].leases| && InRange(q.tasks[l])
    requires from != to && from.task < |p.tasks| && to.task < |p.tasks|
    requires from.variable < |p.tasks[from.task].leases| && to.variable < |p.tasks[to.task].leases|
    requires SlotOf(p.tasks[to.task], to.variable).None?
    requires var lease := p.tasks[from.task].leases[from.variable];
             && q.tasks[from.task].leases[from.variable].Null? && q.tasks[to.task].leases[to.variable] == lease
             && SlotOf(p.tasks[from.task], from.variable) == LeaseSlot(lease)
    requires q.tasks[from.task].pc.Idle? && q.tasks[to.task].pc.Idle?
    requires forall l, w :: 0 <= l < |p.tasks| && 0 <= w < |p.tasks[l].leases| && Place(l, w) != from && Place(l, w) != to ==>
               SameVariable(p.tasks[l], q.tasks[l], w)
    ensures Owned(q, Moved(owner, p.tasks[from.task].leases[from.variable], to))
  {
    var lease := p.tasks[from.task].leases[from.variable];
    var o := Moved(owner, lease, to);
    assert OwnerKnown(p.tasks[from.task], owner, from.task, from.variable);
    assert Current(p.tasks[from.task], from.variable, p.generation);
    forall j | 0 <= j < |o| && o[j].Some?
      ensures Owns(q.tasks, o[j].value, j)
    {
      assert owner[j].Some? && Owns(p.tasks, owner[j].value, j);
      var at := owner[j].value;
      if !(lease.Bound? && lease.index == j) {
        assert at != from && at != to;
        assert SameVariable(p.tasks[at.task], q.tasks[at.task], at.variable);
      }
    }
    forall l: nat, w: nat | l < |q.tasks| && w < |q.tasks[l].leases|
      ensures OwnerKnown(q.tasks[l], o, l, w) && Current(q.tasks[l], w, q.generation)
    {
      if Place(l, w) != from && Place(l, w) != to {
        assert SameVariable(p.tasks[l], q.tasks[l], w);
        assert OwnerKnown(p.tasks[l], owner, l, w) && Current(p.tasks[l], w, p.generation);
      }
    }
  }

  /** The variable owns the same slot with the same generation before and after. */
  predicate SameVariable(t: Task, u: Task, w: nat)
    requires w < |t.leases| == |u.leases|
  {
    && SlotOf(u, w) == SlotOf(t, w)
    && u.leases[w] == t.leases[w]
    && (u.pc.Counting? ==> u.pc == t.pc)
  }

  lemma OwnedCount(p: Pool, k: nat, owner: seq<Option<Place>>)
    requires Owned(p, owner) && k < |p.tasks| && p.tasks[k].pc.Counting?
    ensures Owned(Step(p, k), owner)
  {
    var q, t := Step(p, k), p.tasks[k];
    assert Current(t, t.pc.into, p.generation);
    SameSlots(p, q, k, owner);
  }

  lemma OwnedFinish(p: Pool, k: nat, owner: seq<Option<Place>>)
    requires Owned(p, owner) && k < |p.tasks| && p.tasks[k].pc.Discounting?
    ensures Owned(Step(p, k), StepOwner(p, k, owner))
  {
    var q, t := Step(p, k), p.tasks[k];
    match t.pc.next {
      case Return => SameSlots(p, q, k, owner);
      case MoveFrom(from) => MovedOwner(p, q, Place(k, from), Place(k, t.pc.of), owner);
    }
  }

  /** The generation of a lease being released is always the slot's: the check for a stale lease passes. */
  lemma OwnedCheck(p: Pool, k: nat, owner: seq<Option<Place>>)
    requires Owned(p, owner) && k < |p.tasks| && p.tasks[k].pc.Checking?
    ensures Owned(Step(p, k), owner) && Step(p, k).tasks[k].pc.Clearing?
  {
    var q, t := Step(p, k), p.tasks[k];
    assert Current(t, t.pc.of, p.generation);
    SameSlots(p, q, k, owner);
  }

  lemma OwnedStep(p: Pool, k: nat, owner: seq<Option<Place>>)
    requires Owned(p, owner) && k < |p.tasks|
    ensures Owned(Step(p, k), StepOwner(p, k, owner))
  {
    match p.tasks[k].pc {
      case Idle =>
      case Taking(_, _) => OwnedTake(p, k, owner);
      case Stamping(_, _) => OwnedStamp(p, k, owner);
      case Counting(_, _, _) => OwnedCount(p, k, owner);
      case Exhausting => SameSlots(p, Step(p, k), k, owner);
      case Checking(_, _) => OwnedCheck(p, k, owner);
      case Clearing(_, _) => OwnedClear(p, k, owner);
      case Discounting(_, _) => OwnedFinish(p, k, owner);
    }
  }

  lemma OwnedAssign(p: Pool, a: Action, owner: seq<Option<Place>>)
    requires Owned(p, owner) && Legal(p, a) && a.Assign?
    ensures Owned(Next(p, a), NextOwner(p, a, owner))
  {
    var q, t := Next(p, a), p.tasks[a.task];
    if a.to != a.from {
      if t.leases[a.to].Null? {
        MovedOwner(p, q, Place(a.task, a.from), Place(a.task, a.to), owner);
      } else {
        SameSlots(p, q, a.task, owner);
      }
    }
  }

  lemma OwnedHand(p: Pool, a: Action, owner: seq<Option<Place>>)
    requires Owned(p, owner) && Legal(p, a) && a.Hand?
    ensures Owned(Next(p, a), NextOwner(p, a, owner))
  {
    MovedOwner(p, Next(p, a), Place(a.task, a.from), Place(a.other, a.to), owner);
  }

  lemma OwnedNext(p: Pool, a: Action, owner: seq<Option<Place>>)
    requires Owned(p, owner) && Legal(p, a)
    ensures Owned(Next(p, a), NextOwner(p, a, owner))
  {
    match a {
      case Acquire(_, _) => OwnedRequest(p, a, owner);
      case Release(_, _) => OwnedRequest(p, a, owner);
      case Assign(_, _, _) => OwnedAssign(p, a, owner);
      case Hand(_, _, _, _) => OwnedHand(p, a, owner);
      case Advance(k) => OwnedStep(p, k, owner);
    }
  }

  // ----- accounting --------------------------------------------------------------------------------

  /** How far the task's pending access keeps the counter away from the slots. */
  function Skew(t: Task): int
  {
    match t.pc
    case Stamping(_, _) => -1
    case Counting(_, _, _) => -1
    case Discounting(_, _) => 1
    case _ => 0
  }

  function Skews(ts: seq<Task>): int
  {
    Total(ts, Skew)
  }

  function Acquiring(t: Task): Option<nat>
  {
    match t.pc
    case Stamping(_, i) => Some(i)
    case Counting(_, i, _) => Some(i)
    case _ => None
  }

  ghost predicate AcquiringApart(slots: seq<bool>, ts: seq<Task>)
  {
    && (forall k :: 0 <= k < |ts| && Acquiring(ts[k]).Some? ==>
          Acquiring(ts[k]).value < |slots| && slots[Acquiring(ts[k]).value])
    && (forall k, l :: 0 <= k < l < |ts| && Acquiring(ts[k]).Some? ==> Acquiring(ts[k]) != Acquiring(ts[l]))
  }

  lemma {:induction false} SkewsCovered(slots: seq<bool>, ts: seq<Task>)
    requires AcquiringApart(slots, ts)
    ensures Occupied(slots) + Skews(ts) >= 0
    decreases |ts|
  {
    if ts != [] {
      var last := |ts| - 1;
      if Acquiring(ts[last]).Some? {
        var i := Acquiring(ts[last]).value;
        OccupiedUpdate(slots, i, false);
        SkewsCovered(slots[i := false], ts[..last]);
      } else {
        SkewsCovered(slots, ts[..last]);
      }
    }
  }

  lemma OwnedAcquiringApart(p: Pool, owner: seq<Option<Place>>)
    requires Owned(p, owner)
    ensures AcquiringApart(p.inUse, p.tasks)
  {
    forall k: nat | k < |p.tasks| && Acquiring(p.tasks[k]).Some?
      ensures Acquiring(p.tasks[k]).value < |owner|
      ensures owner[Acquiring(p.tasks[k]).value] == Some(Place(k, p.tasks[k].pc.into))
    {
      assert OwnerKnown(p.tasks[k], owner, k, p.tasks[k].pc.into);
    }
  }

  /** A pending fetch_sub always has something to take: the counter never underflows. */
  lemma DiscountedStaysPositive(p: Pool, k: nat, owner: seq<Option<Place>>)
    requires Owned(p, owner) && k < |p.tasks| && p.tasks[k].pc.Discounting?
    ensures Occupied(p.inUse) + Skews(p.tasks) >= 1
  {
    OwnedAcquiringApart(p, owner);
    var ts := p.tasks[k := Task(Idle, [])];
    TotalUpdate(p.tasks, k, Task(Idle, []), Skew);
    SkewsCovered(p.inUse, ts);
  }

  ghost predicate Accounted(p: Pool)
  {
    && |p.inUse| + |p.tasks| < U32_LIMIT
    && p.active == Occupied(p.inUse) + Skews(p.tasks)
  }

  lemma AccountedStep(p: Pool, k: nat, owner: seq<Option<Place>>)
    requires Owned(p, owner) && Accounted(p) && k < |p.tasks|
    ensures Accounted(Step(p, k))
  {
    if p.tasks[k].pc.Clearing? {
      AccountedClear(p, k, owner);
    } else if p.tasks[k].pc.Taking? {
      AccountedTake(p, k);
    } else {
      AccountedOther(p, k, owner);
    }
  }

  lemma AccountedOther(p: Pool, k: nat, owner: seq<Option<Place>>)
    requires Owned(p, owner) && Accounted(p) && k < |p.tasks|
    requires !p.tasks[k].pc.Clearing? && !p.tasks[k].pc.Taking?
    ensures Accounted(Step(p, k))
  {
    var q := Step(p, k);
    TotalUpdate(p.tasks, k, q.tasks[k], Skew);
    UpperBound(q.tasks, Skew);
    if p.tasks[k].pc.Checking? {
      OwnedCheck(p, k, owner);
    }
    if p.tasks[k].pc.Discounting? {
      DiscountedStaysPositive(p, k, owner);
    }
  }

  lemma AccountedTake(p: Pool, k: nat)
    requires Shape(p) && Accounted(p) && k < |p.tasks| && p.tasks[k].pc.Taking?
    ensures Accounted(Step(p, k))
  {
    var q, i := Step(p, k), p.tasks[k].pc.index;
    TotalUpdate(p.tasks, k, q.tasks[k], Skew);
    if i < |p.inUse| {
      OccupiedUpdate(p.inUse, i, true);
    }
  }

  lemma AccountedClear(p: Pool, k: nat, owner: seq<Option<Place>>)
    requires Owned(p, owner) && Accounted(p) && k < |p.tasks| && p.tasks[k].pc.Clearing?
    ensures Accounted(Step(p, k))
  {
    var q, t := Step(p, k), p.tasks[k];
    TotalUpdate(p.tasks, k, q.tasks[k], Skew);
    assert OwnerKnown(t, owner, k, t.pc.of);
    OccupiedUpdate(p.inUse, t.leases[t.pc.of].index, false);
  }

  lemma AccountedNext(p: Pool, a: Action, owner: seq<Option<Place>>)
    requires Owned(p, owner) && Accounted(p) && Legal(p, a)
    ensures Accounted(Next(p, a))
  {
    var q, k := Next(p, a), a.task;
    if a.Advance? {
      AccountedStep(p, k, owner);
    } else if a.Hand? {
      TotalUpdate(p.tasks, k, q.tasks[k], Skew);
      TotalUpdate(p.tasks[k := q.tasks[k]], a.other, q.tasks[a.other], Skew);
    } else {
      TotalUpdate(p.tasks, k, q.tasks[k], Skew);
    }
  }

  // ----- whole runs ----------------------------------------------------------------------------------

  /** In every interleaving, at every point, the occupied slots and the leases that own them correspond one to one. */
  lemma {:induction false} PoolIsSafe(p: Pool, actions: seq<Action>, pools: seq<Pool>, n: nat)
    returns (owner: seq<Option<Place>>)
    requires Initial(p) && RunFrom(p, actions, pools) && n < |pools|
    ensures Owned(pools[n], owner) && Accounted(pools[n])
  {
    if n == 0 {
      owner := seq(|p.inUse|, i => None);
      AllFree(|p.inUse|);
      TotalBounds(p.tasks, Skew, 0, 0);
      assert Owned(p, owner);
    } else {
      var before := PoolIsSafe(p, actions, pools, n - 1);
      assert Follows(pools[n - 1], actions[n - 1], pools[n - 1 + 1]);
      OwnedNext(pools[n - 1], actions[n - 1], before);
      AccountedNext(pools[n - 1], actions[n - 1], before);
      owner := NextOwner(pools[n - 1], actions[n - 1], before);
    }
  }

  /** Two live leases never share a slot, and each carries the generation of a slot that is in use. */
  lemma LeasesAreExclusive(p: Pool, actions: seq<Action>, pools: seq<Pool>, n: nat, k: nat, v: nat, l: nat, w: nat)
    requires Initial(p) && RunFrom(p, actions, pools) && n < |pools|
    requires k < |pools[n].tasks| && l < |pools[n].tasks| && (k, v) != (l, w)
    requires v < |pools[n].tasks[k].leases| && w < |pools[n].tasks[l].leases|
    requires SlotOf(pools[n].tasks[k], v).Some?
    ensures SlotOf(pools[n].tasks[k], v) != SlotOf(pools[n].tasks[l], w)
    ensures var i := SlotOf(pools[n].tasks[k], v).value;
            && i < |pools[n].inUse| == |pools[n].generation| && pools[n].inUse[i]
            && (pools[n].tasks[k].leases[v].Bound? ==>
                  pools[n].tasks[k].leases[v].generation == pools[n].generation[i])
  {
    var owner := PoolIsSafe(p, actions, pools, n);
    assert OwnerKnown(pools[n].tasks[k], owner, k, v) && Current(pools[n].tasks[k], v, pools[n].generation);
    assert OwnerKnown(pools[n].tasks[l], owner, l, w);
  }

  /** The slots in use are those some lease owns: none leaks. */
  lemma NoSlotLeaks(p: Pool, actions: seq<Action>, pools: seq<Pool>, n: nat, i: nat)
    requires Initial(p) && RunFrom(p, actions, pools) && n < |pools| && i < |pools[n].inUse|
    ensures pools[n].inUse[i] <==>
            exists k: nat, v: nat :: k < |pools[n].tasks| && v < |pools[n].tasks[k].leases|
                                     && SlotOf(pools[n].tasks[k], v) == Some(i)
  {
    var owner := PoolIsSafe(p, actions, pools, n);
    if pools[n].inUse[i] {
      assert Owns(pools[n].tasks, owner[i].value, i);
    }
    if k: nat, v: nat :| k < |pools[n].tasks| && v < |pools[n].tasks[k].leases| && SlotOf(pools[n].tasks[k], v) == Some(i) {
      assert OwnerKnown(pools[n].tasks[k], owner, k, v);
    }
  }

  /** A release is never refused as stale, and always frees exactly its slot. */
  lemma ReleaseAlwaysFrees(p: Pool, actions: seq<Action>, pools: seq<Pool>, n: nat, k: nat)
    requires Initial(p) && RunFrom(p, actions, pools) && n < |pools| && k < |pools[n].tasks|
    ensures Shape(pools[n])
    ensures pools[n].tasks[k].pc.Checking? ==> Step(pools[n], k).tasks[k].pc.Clearing?
    ensures pools[n].tasks[k].pc.Clearing? ==>
              var i := pools[n].tasks[k].leases[pools[n].tasks[k].pc.of].index;
              && i < |pools[n].inUse| && pools[n].inUse[i]
              && Step(pools[n], k).inUse == pools[n].inUse[i := false]
              && Step(pools[n], k).tasks[k].pc.Discounting?
  {
    var owner := PoolIsSafe(p, actions, pools, n);
    var t := pools[n].tasks[k];
    if t.pc.Checking? {
      OwnedCheck(pools[n], k, owner);
    }
    if t.pc.Clearing? {
      OwnedClear(pools[n], k, owner);
      assert OwnerKnown(t, owner, k, t.pc.of);
    }
  }

  /** The counter is the number of occupied slots less pending increments plus pending decrements, and never wraps. */
  lemma ActiveIsExact(p: Pool, actions: seq<Action>, pools: seq<Pool>, n: nat, k: nat)
    requires Initial(p) && RunFrom(p, actions, pools) && n < |pools| && k < |pools[n].tasks|
    ensures Shape(pools[n]) && pools[n].active == Occupied(pools[n].inUse) + Skews(pools[n].tasks)
    ensures pools[n].tasks[k].pc.Discounting? ==> Step(pools[n], k).active == pools[n].active - 1
    ensures pools[n].tasks[k].pc.Counting? ==> Step(pools[n], k).active == pools[n].active + 1
  {
    var owner := PoolIsSafe(p, actions, pools, n);
    UpperBound(pools[n].tasks, Skew);
    if pools[n].tasks[k].pc.Discounting? {
      DiscountedStaysPositive(pools[n], k, owner);
    }
    if pools[n].tasks[k].pc.Counting? {
      TotalUpdate(pools[n].tasks, k, Task(Idle, []), Skew);
      UpperBound(pools[n].tasks[k := Task(Idle, [])], Skew);
    }
  }

  /** A moved-from lease is null: releasing it changes nothing, and the lease lives on in its new variable. */
  lemma MovedFromReleasesNothing(p: Pool, k: nat, from: nat, other: nat, to: nat)
    requires Shape(p) && Legal(p, Hand(k, from, other, to))
    ensures var q := Next(p, Hand(k, from, other, to));
            && Shape(q) && Legal(q, Release(k, from)) && Next(q, Release(k, from)) == q
            && SlotOf(q.tasks[other], to) == SlotOf(p.tasks[k], from)
  {
  }

  // ----- operations that nobody disturbs ----------------------------------------------------------------

  lemma ShapeStep(p: Pool, k: nat)
    requires Shape(p) && k < |p.tasks|
    ensures Shape(Step(p, k)) && |Step(p, k).tasks| == |p.tasks| && |Step(p, k).inUse| == |p.inUse|
  {
  }

  /** The pool after `n` accesses by one task alone. */
  function Alone(p: Pool, k: nat, n: nat): (q: Pool)
    requires Shape(p) && k < |p.tasks|
    ensures Shape(q) && |q.tasks| == |p.tasks|
    decreases n
  {
    ShapeStep(p, k);
    if n == 0 then p else Alone(Step(p, k), k, n - 1)
  }

  lemma {:induction false} AloneSplit(p: Pool, k: nat, m: nat, n: nat)
    requires Shape(p) && k < |p.tasks|
    ensures Alone(p, k, m + n) == Alone(Alone(p, k, m), k, n)
    decreases m
  {
    hide Step, InRange;
    if m > 0 {
      ShapeStep(p, k);
      AloneSplit(Step(p, k), k, m - 1, n);
      assert m + n - 1 == m - 1 + n;
    }
  }

  /** It is where the run of these accesses ends. */
  lemma {:induction false} AloneIsRun(p: Pool, k: nat, n: nat) returns (actions: seq<Action>, pools: seq<Pool>)
    requires Shape(p) && k < |p.tasks|
    ensures RunFrom(p, actions, pools) && |actions| == n && forall i :: 0 <= i < n ==> actions[i] == Advance(k)
    ensures pools[n] == Alone(p, k, n)
    decreases n
  {
    if n == 0 {
      return [], [p];
    }
    ShapeStep(p, k);
    hide InRange, Step;
    var later, rest := AloneIsRun(Step(p, k), k, n - 1);
    actions, pools := [Advance(k)] + later, [p] + rest;
    forall i | 0 <= i < n
      ensures Follows(pools[i], actions[i], pools[i + 1])
    {
      if i > 0 {
        assert Follows(rest[i - 1], later[i - 1], rest[i - 1 + 1]);
      }
    }
  }

  /** The scan passes over slots in use, and changes nothing. */
  lemma {:induction false} ScanAlone(p: Pool, k: nat, v: nat, i: nat, m: nat)
    requires Shape(p) && k < |p.tasks| && p.tasks[k].pc == Taking(v, i)
    requires i <= m <= |p.inUse| && forall j :: i <= j < m ==> p.inUse[j]
    ensures Alone(p, k, m - i) == With(p, k, Taking(v, m), p.tasks[k].leases)
    decreases m - i
  {
    if i < m {
      ShapeStep(p, k);
      ScanAlone(Step(p, k), k, v, i + 1, m);
    } else {
      assert p.tasks[k := Task(Taking(v, m), p.tasks[k].leases)] == p.tasks;
    }
  }

  /** `i` is the first slot that is not in use, or the number of slots if all are. */
  predicate FirstFree(slots: seq<bool>, i: nat)
  {
    i <= |slots| && (forall j :: 0 <= j < i ==> slots[j]) && (i < |slots| ==> !slots[i])
  }

  lemma {:induction false} SomeFirstFree(slots: seq<bool>) returns (i: nat)
    ensures FirstFree(slots, i)
  {
    if slots == [] || !slots[0] {
      i := 0;
    } else {
      var j := SomeFirstFree(slots[1..]);
      i := j + 1;
      assert forall l :: 0 < l < i ==> slots[l] == slots[1..][l - 1];
    }
  }

  /**
   * An acquisition that nobody disturbs ends. If a slot is free, the variable is bound to the first free one at the
   * slot's new generation; otherwise it stays null, and all that changes is the count of exhaustions.
   */
  lemma AcquireAlone(p: Pool, k: nat, into: nat) returns (n: nat, i: nat)
    requires Shape(p) && k < |p.tasks| && p.tasks[k].pc.Idle?
    requires into < |p.tasks[k].leases| && p.tasks[k].leases[into].Null?
    ensures FirstFree(p.inUse, i) && Shape(Next(p, Acquire(k, into)))
    ensures var q := Alone(Next(p, Acquire(k, into)), k, n);
            && |q.tasks| == |p.tasks| && q.tasks[k].pc.Idle?
            && (forall l :: 0 <= l < |p.tasks| && l != k ==> q.tasks[l] == p.tasks[l])
            && if i < |p.inUse| then
                 && q.inUse == p.inUse[i := true] && |q.generation| == |p.generation|
                 && q.generation == p.generation[i := (p.generation[i] + 1) % U32_LIMIT]
                 && q.active == (p.active + 1) % U32_LIMIT && q.exhaustions == p.exhaustions
                 && q.tasks[k].leases == p.tasks[k].leases[into := Bound(i, q.generation[i], 0)]
               else
                 q == p.(exhaustions := p.exhaustions + 1) && q.tasks[k].leases[into].Null?
  {
    i := SomeFirstFree(p.inUse);
    var t := p.tasks[k];
    var start := Next(p, Acquire(k, into));
    hide Step, Alone;
    ScanAlone(start, k, into, 0, i);
    var found := Alone(start, k, i);
    n := if i < |p.inUse| then i + 3 else i + 2;
    AloneSplit(start, k, i, n - i);
    AcquireEnds(found, k, into, i);
    assert p.tasks == p.tasks[k := Task(Idle, t.leases)];
  }

  lemma AcquireEnds(p: Pool, k: nat, into: nat, i: nat)
    requires Shape(p) && k < |p.tasks| && p.tasks[k].pc == Taking(into, i)
    requires i <= |p.inUse| && (i < |p.inUse| ==> !p.inUse[i])
    ensures i < |p.inUse| ==>
              var stamp := (p.generation[i] + 1) % U32_LIMIT;
              Alone(p, k, 3) == Pool(p.inUse[i := true], p.generation[i := stamp], (p.active + 1) % U32_LIMIT, p.exhaustions,
                                     p.tasks[k := Task(Idle, p.tasks[k].leases[into := Bound(i, stamp, 0)])])
    ensures i == |p.inUse| ==>
              Alone(p, k, 2) == p.(exhaustions := p.exhaustions + 1, tasks := p.tasks[k := Task(Idle, p.tasks[k].leases)])
  {
    var q := Step(p, k);
    ShapeStep(p, k);
    var r := Step(q, k);
    ShapeStep(q, k);
    assert Alone(p, k, 2) == Alone(q, k, 1) == r;
    if i < |p.inUse| {
      assert Alone(p, k, 3) == Alone(q, k, 2) == Alone(r, k, 1) == Step(r, k);
    }
  }

  /**
   * A release that nobody disturbs, at any point of any run, ends with the variable null and its slot free. When it is
   * the first half of a move assignment, the variable ends with the other's lease and the other is null.
   */
  lemma ReleaseAlone(p: Pool, actions: seq<Action>, pools: seq<Pool>, n: nat, a: Action)
    requires Initial(p) && RunFrom(p, actions, pools) && n < |pools|
    requires Shape(pools[n]) && Legal(pools[n], a) && pools[n].tasks[a.task].pc.Idle?
    requires (a.Release? && pools[n].tasks[a.task].leases[a.of].Bound?)
          || (a.Assign? && a.to != a.from && pools[n].tasks[a.task].leases[a.to].Bound?)
    ensures Shape(Next(pools[n], a)) && a.task < |Next(pools[n], a).tasks|
    ensures var s, q := pools[n], Alone(Next(pools[n], a), a.task, 3);
            var v := if a.Release? then a.of else a.to;
            var leases := s.tasks[a.task].leases;
            var i := leases[v].index;
            && i < |s.inUse| && s.inUse[i] && s.active > 0
            && q == s.(inUse := s.inUse[i := false], active := s.active - 1,
                       tasks := s.tasks[a.task := Task(Idle, if a.Release? then leases[v := Null]
                                                             else leases[v := leases[a.from]][a.from := Null])])
  {
    var s, k := pools[n], a.task;
    var v := if a.Release? then a.of else a.to;
    var owner := PoolIsSafe(p, actions, pools, n);
    assert OwnerKnown(s.tasks[k], owner, k, v) && Current(s.tasks[k], v, s.generation);
    ActiveCounts(s, owner, s.tasks[k].leases[v].index);
    ReleaseEnds(s, a, v);
  }

  /** A slot in use whose owner is idle has been counted. */
  lemma ActiveCounts(s: Pool, owner: seq<Option<Place>>, i: nat)
    requires Owned(s, owner) && Accounted(s) && i < |s.inUse| && s.inUse[i]
    requires owner[i].Some? && s.tasks[owner[i].value.task].pc.Idle?
    ensures 0 < s.active < U32_LIMIT
  {
    OwnedAcquiringApart(s, owner);
    var others := s.inUse[i := false];
    forall l | 0 <= l < |s.tasks| && Acquiring(s.tasks[l]).Some?
      ensures Acquiring(s.tasks[l]).value != i
    {
      assert OwnerKnown(s.tasks[l], owner, l, s.tasks[l].pc.into);
      assert Owns(s.tasks, owner[i].value, i);
    }
    OccupiedUpdate(s.inUse, i, false);
    SkewsCovered(others, s.tasks);
    UpperBound(s.tasks, Skew);
  }

  lemma ReleaseEnds(s: Pool, a: Action, v: nat)
    requires Shape(s) && Legal(s, a) && 0 < s.active < U32_LIMIT
    requires (a.Release? && v == a.of) || (a.Assign? && v == a.to && a.to != a.from)
    requires var l := s.tasks[a.task].leases[v];
             l.Bound? && l.index < |s.inUse| && s.inUse[l.index] && l.generation == s.generation[l.index]
    ensures Shape(Next(s, a)) && |Next(s, a).tasks| == |s.tasks|
    ensures var leases := s.tasks[a.task].leases;
            Alone(Next(s, a), a.task, 3) ==
              s.(inUse := s.inUse[leases[v].index := false], active := s.active - 1,
                 tasks := s.tasks[a.task := Task(Idle, if a.Release? then leases[v := Null]
                                                       else leases[v := leases[a.from]][a.from := Null])])
  {
    ThreeSteps(Next(s, a), a.task);
    hide Alone, Shape;
  }

  lemma ThreeSteps(p: Pool, k: nat)
    requires Shape(p) && k < |p.tasks|
    ensures Shape(Step(p, k)) && k < |Step(p, k).tasks|
    ensures Shape(Step(Step(p, k), k)) && k < |Step(Step(p, k), k).tasks|
    ensures Alone(p, k, 3) == Step(Step(Step(p, k), k), k)
  {
    ShapeStep(p, k);
    ShapeStep(Step(p, k), k);
    assert Alone(p, k, 3) == Alone(Step(p, k), k, 2) == Alone(Step(Step(p, k), k), k, 1);
  }

  // ----- exhaustion ---------------------------------------------------------------------------------------

  /** In step `m` the task tries slot `i` and finds it in use. */
  ghost predicate Refused(actions: seq<Action>, pools: seq<Pool>, m: nat, k: nat, i: nat)
    requires |pools| == |actions| + 1
  {
    && m < |actions| && actions[m] == Advance(k) && k < |pools[m].tasks|
    && pools[m].tasks[k].pc.Taking? && pools[m].tasks[k].pc.index == i && i < |pools[m].inUse| && pools[m].inUse[i]
  }

  ghost predicate RefusedSince(actions: seq<Action>, pools: seq<Pool>, a: nat, n: nat, k: nat, i: nat)
    requires |pools| == |actions| + 1
  {
    exists m: nat :: a < m < n && Refused(actions, pools, m, k, i)
  }

  /** The acquisition begun in step `a` has not returned by `n`, and has been refused by the first `i` slots since. */
  ghost predicate RefusedBy(actions: seq<Action>, pools: seq<Pool>, a: nat, n: nat, k: nat, i: nat)
    requires |pools| == |actions| + 1
  {
    && a < n <= |actions| && actions[a].Acquire? && actions[a].task == k
    && (forall m :: a < m < n ==>
          k < |pools[m].tasks| && (pools[m].tasks[k].pc.Taking? || pools[m].tasks[k].pc.Exhausting?))
    && (forall j: nat :: j < i ==> RefusedSince(actions, pools, a, n, k, j))
  }

  /**
   * In every interleaving, a scan has been refused by every slot before the one it is at, each in use at the moment it
   * was tried; so an acquisition that reports exhaustion has met every slot in use.
   */
  lemma {:induction false} ExhaustedMeetsAllInUse(p: Pool, actions: seq<Action>, pools: seq<Pool>, n: nat, k: nat)
    requires Initial(p) && RunFrom(p, actions, pools) && n < |pools| && k < |pools[n].tasks|
    ensures |pools[n].inUse| == |p.inUse| && |pools[n].tasks| == |p.tasks|
    ensures pools[n].tasks[k].pc.Taking? ==>
              exists a: nat :: RefusedBy(actions, pools, a, n, k, pools[n].tasks[k].pc.index)
    ensures pools[n].tasks[k].pc.Exhausting? ==> exists a: nat :: RefusedBy(actions, pools, a, n, k, |p.inUse|)
  {
    if n > 0 {
      var s, t, b := pools[n - 1], pools[n], actions[n - 1];
      var owner := PoolIsSafe(p, actions, pools, n - 1);
      assert Follows(s, b, pools[n - 1 + 1]);
      TasksStay(s, b, k);
      ExhaustedMeetsAllInUse(p, actions, pools, n - 1, k);
      hide Next, Shape, Owned, Accounted, Follows, Legal;
      if t.tasks[k].pc.Taking? || t.tasks[k].pc.Exhausting? {
        if b.Acquire? && b.task == k {
          assert RefusedBy(actions, pools, n - 1, n, k, 0);
        } else {
          var i := if s.tasks[k].pc.Taking? then s.tasks[k].pc.index else |p.inUse|;
          var a: nat :| RefusedBy(actions, pools, a, n - 1, k, i);
          RefusedNext(actions, pools, a, n - 1, n, k, i);
          if t.tasks[k].pc.Exhausting? {
            RefusedByFewer(actions, pools, a, n, k, i, |p.inUse|);
          }
        }
      }
    }
  }

  /** How a task comes to scan a slot or to report exhaustion. */
  lemma TasksStay(s: Pool, b: Action, k: nat)
    requires Shape(s) && Legal(s, b) && k < |s.tasks|
    ensures var t := Next(s, b);
            && |t.tasks| == |s.tasks| && |t.inUse| == |s.inUse|
            && (t.tasks[k].pc.Taking? || t.tasks[k].pc.Exhausting? ==>
                  || (b.Acquire? && b.task == k && t.tasks[k].pc.Taking? && t.tasks[k].pc.index == 0)
                  || (s.tasks[k].pc == t.tasks[k].pc && b != Advance(k))
                  || (b == Advance(k) && s.tasks[k].pc.Taking?
                      && var i := s.tasks[k].pc.index;
                         if i < |s.inUse| then s.inUse[i] && t.tasks[k].pc.Taking? && t.tasks[k].pc.index == i + 1
                         else t.tasks[k].pc.Exhausting?))
  {
  }

  lemma RefusedByFewer(actions: seq<Action>, pools: seq<Pool>, a: nat, n: nat, k: nat, i: nat, j: nat)
    requires |pools| == |actions| + 1 && RefusedBy(actions, pools, a, n, k, i) && j <= i
    ensures RefusedBy(actions, pools, a, n, k, j)
  {
  }

  lemma RefusedNext(actions: seq<Action>, pools: seq<Pool>, a: nat, m: nat, n: nat, k: nat, i: nat)
    requires |pools| == |actions| + 1 && m < |actions| && n == m + 1 && RefusedBy(actions, pools, a, m, k, i)
    requires k < |pools[m].tasks| && (pools[m].tasks[k].pc.Taking? || pools[m].tasks[k].pc.Exhausting?)
    ensures RefusedBy(actions, pools, a, n, k, i)
    ensures Refused(actions, pools, m, k, i) ==> RefusedBy(actions, pools, a, n, k, i + 1)
  {
    forall j: nat | RefusedSince(actions, pools, a, m, k, j)
      ensures RefusedSince(actions, pools, a, n, k, j)
    {
      var l: nat :| a < l < m && Refused(actions, pools, l, k, j);
      assert a < l < n;
    }
    if Refused(actions, pools, m, k, i) {
      assert RefusedSince(actions, pools, a, n, k, i);
    }
  }
}
