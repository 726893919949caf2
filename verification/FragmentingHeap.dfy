/**
 * The fixed-table first-fit arena of include/core/FragmentingInternalHeap.h.
 * Sizes are unbounded naturals: arenas below half the address range, where no sum in the source wraps.
 */
module FragmentingHeap {
  import opened Bytes

  datatype Allocation = Allocation(offset: nat, bytes: nat, id: u32, used: bool)
  {
    function End(): nat { offset + bytes }
  }

  const UNUSED := Allocation(0, 0, 0, false)

  /** The whole state: the allocation table and the next identifier. */
  datatype Heap = Heap(table: seq<Allocation>, nextId: u32)

  predicate PowerOfTwo(a: nat)
  {
    a == 1 || (a >= 2 && a % 2 == 0 && PowerOfTwo(a / 2))
  }

  function Power(k: nat): nat { if k == 0 then 1 else 2 * Power(k - 1) }

  lemma {:induction false} PowersAreAccepted(k: nat)
    ensures PowerOfTwo(Power(k))
  {
    if k > 0 {
      PowersAreAccepted(k - 1);
      assert Power(k) / 2 == Power(k - 1);
    }
  }

  /** The alignments that are accepted are the powers of two. */
  lemma {:induction false} PowerOfTwoIff(a: nat)
    ensures PowerOfTwo(a) <==> exists k: nat :: Power(k) == a
  {
    forall k: nat | Power(k) == a
      ensures PowerOfTwo(a)
    {
      PowersAreAccepted(k);
    }
    if a == 1 {
      assert Power(0) == a;
    } else if PowerOfTwo(a) {
      PowerOfTwoIff(a / 2);
      var k: nat :| Power(k) == a / 2;
      assert Power(k + 1) == a;
    }
  }

  /** The bit mask of the source, read as arithmetic for a power of two. */
  function AlignUp(value: nat, alignment: nat): (r: nat)
    requires alignment > 0
    ensures r <= value + alignment - 1
  {
    var s := value + alignment - 1;
    s - s % alignment
  }

  lemma Monotone(a: nat, i: nat, j: nat)
    requires i <= j
    ensures a * i <= a * j
  {
  }

  lemma MultiplesApart(x: nat, y: nat, a: nat)
    requires a > 0 && x % a == 0 && y % a == 0 && x < y
    ensures x + a <= y
  {
    var i, j := x / a, y / a;
    assert x == a * i && y == a * j;
    assert j > i by {
      if j <= i { Monotone(a, j, i); }
    }
    Monotone(a, i + 1, j);
  }

  lemma ModSubtract(s: nat, a: nat)
    requires a > 0
    ensures (s - s % a) % a == 0
  {
    var k := s / a;
    assert s - s % a == a * k;
    assert (a * k) % a == 0 by { MultipleIsAligned(k, a); }
  }

  lemma {:induction false} MultipleIsAligned(k: nat, a: nat)
    requires a > 0
    ensures (a * k) % a == 0
  {
    if k > 0 {
      MultipleIsAligned(k - 1, a);
      assert a * k == a * (k - 1) + a;
      ModPlus(a * (k - 1), a);
    }
  }

  lemma ModPlus(x: nat, a: nat)
    requires a > 0 && x % a == 0
    ensures (x + a) % a == 0
  {
    var k, q, m := x / a, (x + a) / a, (x + a) % a;
    assert a * k + a == a * q + m;
    if q > k + 1 { Monotone(a, k + 2, q); }
    if q < k + 1 { Monotone(a, q, k); }
  }

  /** AlignUp is the least multiple of the alignment that is not below the value. */
  lemma AlignUpIsLeast(value: nat, a: nat)
    requires a > 0
    ensures AlignUp(value, a) % a == 0 && value <= AlignUp(value, a)
    ensures forall q: nat :: value <= q < AlignUp(value, a) ==> q % a != 0
  {
    var r := AlignUp(value, a);
    ModSubtract(value + a - 1, a);
    forall q: nat | value <= q < r
      ensures q % a != 0
    {
      if q % a == 0 {
        MultiplesApart(q, r, a);
      }
    }
  }

  // ----- arenas --------------------------------------------------------------------------------

  predicate Overlap(o: nat, n: nat, p: nat, m: nat)
  {
    o < p + m && p < o + n
  }

  ghost predicate Inside(b: Allocation, arena: nat)
  {
    b.bytes > 0 && b.End() <= arena
  }

  ghost predicate NonEmpty(t: seq<Allocation>)
  {
    forall i :: 0 <= i < |t| && t[i].used ==> t[i].bytes > 0
  }

  ghost predicate Contained(t: seq<Allocation>, arena: nat)
  {
    forall i :: 0 <= i < |t| && t[i].used ==> Inside(t[i], arena)
  }

  /** Live blocks are non-empty, inside the arena and pairwise disjoint. */
  ghost predicate WellFormed(t: seq<Allocation>, arena: nat)
  {
    && Contained(t, arena)
    && (forall i, j :: 0 <= i < j < |t| && t[i].used && t[j].used ==>
          !Overlap(t[i].offset, t[i].bytes, t[j].offset, t[j].bytes))
  }

  ghost predicate AlignedTo(t: seq<Allocation>, alignment: nat)
    requires alignment > 0
  {
    forall i :: 0 <= i < |t| && t[i].used ==> t[i].offset % alignment == 0
  }

  /** No live block meets [offset, offset + bytes). */
  ghost predicate Clear(t: seq<Allocation>, offset: nat, bytes: nat)
  {
    forall i :: 0 <= i < |t| && t[i].used ==> !Overlap(offset, bytes, t[i].offset, t[i].bytes)
  }

  ghost predicate Feasible(t: seq<Allocation>, arena: nat, offset: nat, bytes: nat, alignment: nat)
    requires alignment > 0
  {
    offset % alignment == 0 && offset + bytes <= arena && Clear(t, offset, bytes)
  }

  /** Some live block starts before the point and ends after it. */
  predicate Straddled(t: seq<Allocation>, point: nat)
  {
    exists i :: 0 <= i < |t| && t[i].used && t[i].offset < point < t[i].End()
  }

  // ----- the scan as a function ------------------------------------------------------------------

  /** The first of the blocks in t[..k] that start lowest at or after `offset`. */
  function NextAmong(t: seq<Allocation>, k: nat, offset: nat): (r: Option<nat>)
    requires k <= |t|
    ensures r.Some? ==> r.value < k && t[r.value].used && t[r.value].offset >= offset
    ensures r.None? ==> forall i :: 0 <= i < k && t[i].used ==> t[i].offset < offset
    ensures r.Some? ==> forall i :: 0 <= i < k && t[i].used && t[i].offset >= offset ==>
                          t[r.value].offset <= t[i].offset
  {
    if k == 0 then None
    else
      var best := NextAmong(t, k - 1, offset);
      var b := t[k - 1];
      if !b.used || b.offset < offset then best
      else if best.None? || b.offset < t[best.value].offset then Some(k - 1)
      else best
  }

  function NextAt(t: seq<Allocation>, offset: nat): (r: Option<nat>)
    ensures r.Some? ==> r.value < |t| && t[r.value].used && t[r.value].offset >= offset
    ensures r.None? ==> forall i :: 0 <= i < |t| && t[i].used ==> t[i].offset < offset
    ensures r.Some? ==> forall i :: 0 <= i < |t| && t[i].used && t[i].offset >= offset ==>
                          t[r.value].offset <= t[i].offset
  {
    NextAmong(t, |t|, offset)
  }

  /** Where first fit from `cursor` places a block. */
  function Scan(t: seq<Allocation>, arena: nat, cursor: nat, bytes: nat, alignment: nat): Option<nat>
    requires NonEmpty(t) && alignment > 0
    decreases arena + 1 - cursor
  {
    if cursor > arena then None
    else
      var aligned := AlignUp(cursor, alignment);
      AlignUpIsLeast(cursor, alignment);
      if aligned > arena || bytes > arena - aligned then None
      else
        match NextAt(t, aligned)
        case None => Some(aligned)
        case Some(k) =>
          if aligned + bytes <= t[k].offset then Some(aligned)
          else if t[k].End() > arena then None
          else Scan(t, arena, t[k].End(), bytes, alignment)
  }

  /** Every block that starts before the cursor has ended by it. */
  ghost predicate Passed(t: seq<Allocation>, cursor: nat)
  {
    forall i :: 0 <= i < |t| && t[i].used && t[i].offset < cursor ==> t[i].End() <= cursor
  }

  lemma PassedNext(t: seq<Allocation>, arena: nat, point: nat, k: nat)
    requires WellFormed(t, arena) && Passed(t, point)
    requires NextAt(t, point) == Some(k)
    ensures Passed(t, t[k].End())
  {
    forall i | 0 <= i < |t| && t[i].used && t[i].offset < t[k].End()
      ensures t[i].End() <= t[k].End()
    {
    }
  }

  /** When every live offset is a multiple of the alignment, no block reaches past an aligned point it starts before. */
  lemma PassedAligned(t: seq<Allocation>, cursor: nat, alignment: nat)
    requires alignment > 0 && AlignedTo(t, alignment) && Passed(t, cursor)
    ensures Passed(t, AlignUp(cursor, alignment))
  {
    AlignUpIsLeast(cursor, alignment);
    forall i | 0 <= i < |t| && t[i].used && t[i].offset < AlignUp(cursor, alignment)
      ensures t[i].End() <= AlignUp(cursor, alignment)
    {
      assert t[i].offset % alignment == 0;
    }
  }

  lemma {:induction false} ScanFinds(t: seq<Allocation>, arena: nat, cursor: nat, bytes: nat, alignment: nat)
    requires WellFormed(t, arena) && NonEmpty(t) && alignment > 0 && AlignedTo(t, alignment) && bytes > 0
    requires Passed(t, cursor)
    ensures var r := Scan(t, arena, cursor, bytes, alignment);
            match r
            case Some(p) =>
              && cursor <= p && Feasible(t, arena, p, bytes, alignment)
              && forall q: nat :: cursor <= q < p ==> !Feasible(t, arena, q, bytes, alignment)
            case None => forall q: nat :: cursor <= q ==> !Feasible(t, arena, q, bytes, alignment)
    decreases arena + 1 - cursor
  {
    if cursor <= arena {
      var p := AlignUp(cursor, alignment);
      AlignUpIsLeast(cursor, alignment);
      PassedAligned(t, cursor, alignment);
      if p <= arena && bytes <= arena - p {
        var next := NextAt(t, p);
        if next.Some? && p + bytes > t[next.value].offset {
          var k := next.value;
          PassedNext(t, arena, p, k);
          assert Inside(t[k], arena);
          ScanFinds(t, arena, t[k].End(), bytes, alignment);
          forall q: nat | cursor <= q < t[k].End()
            ensures !Feasible(t, arena, q, bytes, alignment)
          {
            if q >= p {
              assert Overlap(q, bytes, t[k].offset, t[k].bytes);
            }
          }
        } else {
          assert Clear(t, p, bytes);
        }
      }
    }
  }

  /**
   * First fit is right: with live offsets that are multiples of the alignment, it finds the least
   * feasible aligned offset, and finds none only when there is none.
   */
  lemma FirstFitIsLeast(t: seq<Allocation>, arena: nat, bytes: nat, alignment: nat)
    requires WellFormed(t, arena) && NonEmpty(t) && alignment > 0 && AlignedTo(t, alignment) && bytes > 0
    ensures var r := Scan(t, arena, 0, bytes, alignment);
            && (r.Some? <==> exists q: nat :: Feasible(t, arena, q, bytes, alignment))
            && (r.Some? ==>
                  && Feasible(t, arena, r.value, bytes, alignment)
                  && forall q: nat :: Feasible(t, arena, q, bytes, alignment) ==> r.value <= q)
  {
    ScanFinds(t, arena, 0, bytes, alignment);
  }

  lemma {:induction false} ScanAhead(t: seq<Allocation>, arena: nat, cursor: nat, bytes: nat, alignment: nat)
    requires NonEmpty(t) && alignment > 0
    ensures var r := Scan(t, arena, cursor, bytes, alignment);
            r.Some? ==>
              && r.value % alignment == 0 && r.value + bytes <= arena
              && forall i :: 0 <= i < |t| && t[i].used && t[i].offset >= r.value ==> r.value + bytes <= t[i].offset
    decreases arena + 1 - cursor
  {
    if cursor <= arena {
      AlignUpIsLeast(cursor, alignment);
      var p := AlignUp(cursor, alignment);
      if p <= arena && bytes <= arena - p {
        var next := NextAt(t, p);
        if next.Some? && p + bytes > t[next.value].offset && t[next.value].End() <= arena {
          ScanAhead(t, arena, t[next.value].End(), bytes, alignment);
        }
      }
    }
  }

  /**
   * Without that condition the scan only looks ahead of the aligned point. The block it places is clear of
   * the others if and only if no live block straddles the place it chose.
   */
  lemma PlacementIsClearUnlessStraddled(t: seq<Allocation>, arena: nat, bytes: nat, alignment: nat)
    requires WellFormed(t, arena) && NonEmpty(t) && alignment > 0 && bytes > 0
    requires Scan(t, arena, 0, bytes, alignment).Some?
    ensures var p := Scan(t, arena, 0, bytes, alignment).value;
            Clear(t, p, bytes) <==> !Straddled(t, p)
  {
    ScanAhead(t, arena, 0, bytes, alignment);
  }

  /** Where the free space at a point ends: at the next block that starts at or after it, or at the arena's end. */
  function GapEnd(t: seq<Allocation>, arena: nat, point: nat): nat
  {
    match NextAt(t, point) case None => arena case Some(k) => t[k].offset
  }

  /**
   * The scan looks at the same points whatever the size of the request: this walks them, and asks that no live
   * block straddles a point whose gap is larger than every gap before it. Only those points are ever chosen.
   */
  predicate PathClear(t: seq<Allocation>, arena: nat, cursor: nat, alignment: nat, best: nat)
    requires NonEmpty(t) && alignment > 0
    decreases arena + 1 - cursor
  {
    cursor <= arena ==>
      var point := AlignUp(cursor, alignment);
      AlignUpIsLeast(cursor, alignment);
      point <= arena ==>
        var gap := GapEnd(t, arena, point) - point;
        && (gap > best ==> !Straddled(t, point))
        && match NextAt(t, point)
           case None => true
           case Some(k) => PathClear(t, arena, t[k].End(), alignment, if gap > best then gap else best)
  }

  /** Every size above `best` is placed at an unstraddled point from `cursor` on. */
  ghost predicate PlacesClear(t: seq<Allocation>, arena: nat, cursor: nat, alignment: nat, best: nat)
    requires NonEmpty(t) && alignment > 0
  {
    forall bytes: nat :: bytes > best ==> PlacedClear(t, arena, cursor, alignment, bytes)
  }

  ghost predicate PlacedClear(t: seq<Allocation>, arena: nat, cursor: nat, alignment: nat, bytes: nat)
    requires NonEmpty(t) && alignment > 0
  {
    var place := Scan(t, arena, cursor, bytes, alignment);
    place.Some? ==> !Straddled(t, place.value)
  }

  /** One turn of the scan: a request that fits the gap is placed at the point, a larger one goes on to the block's end. */
  lemma ScanTurn(t: seq<Allocation>, arena: nat, cursor: nat, alignment: nat, bytes: nat)
    requires Contained(t, arena) && NonEmpty(t) && alignment > 0 && cursor <= arena
    ensures AlignUp(cursor, alignment) >= cursor
    ensures var point := AlignUp(cursor, alignment);
            if point > arena then Scan(t, arena, cursor, bytes, alignment).None?
            else
              && GapEnd(t, arena, point) >= point
              && Scan(t, arena, cursor, bytes, alignment) ==
                   (if point + bytes <= GapEnd(t, arena, point) then Some(point)
                    else match NextAt(t, point)
                         case None => None
                         case Some(k) => Scan(t, arena, t[k].End(), bytes, alignment))
  {
    AlignUpIsLeast(cursor, alignment);
    var point := AlignUp(cursor, alignment);
    if point <= arena {
      var next := NextAt(t, point);
      if next.Some? {
        assert Inside(t[next.value], arena);
        if bytes > arena - point {
          ScanNeedsRoom(t, arena, t[next.value].End(), alignment, bytes);
        }
      }
    }
  }

  lemma ScanNeedsRoom(t: seq<Allocation>, arena: nat, cursor: nat, alignment: nat, bytes: nat)
    requires NonEmpty(t) && alignment > 0 && cursor + bytes > arena
    ensures Scan(t, arena, cursor, bytes, alignment).None?
  {
    if cursor <= arena {
      AlignUpIsLeast(cursor, alignment);
    }
  }

  lemma {:induction false} PathDecides(t: seq<Allocation>, arena: nat, cursor: nat, alignment: nat, best: nat)
    requires Contained(t, arena) && NonEmpty(t) && alignment > 0
    ensures PathClear(t, arena, cursor, alignment, best) <==> PlacesClear(t, arena, cursor, alignment, best)
    decreases arena + 1 - cursor
  {
    if cursor <= arena {
      AlignUpIsLeast(cursor, alignment);
      var point := AlignUp(cursor, alignment);
      forall bytes: nat
        ensures PlacedClear(t, arena, cursor, alignment, bytes) <==>
                  PlacedTurn(t, arena, point, alignment, bytes)
      {
        ScanTurn(t, arena, cursor, alignment, bytes);
      }
      if point <= arena {
        ScanTurn(t, arena, cursor, alignment, 0);
        var gap := GapEnd(t, arena, point) - point;
        var next := NextAt(t, point);
        if next.Some? {
          PathDecides(t, arena, t[next.value].End(), alignment, if gap > best then gap else best);
        }
        TurnDecides(t, arena, cursor, point, alignment, best);
      }
    }
  }

  /** What one turn makes of a request. */
  ghost predicate PlacedTurn(t: seq<Allocation>, arena: nat, point: nat, alignment: nat, bytes: nat)
    requires NonEmpty(t) && alignment > 0
  {
    point <= arena ==>
      if point + bytes <= GapEnd(t, arena, point) then !Straddled(t, point)
      else match NextAt(t, point)
           case None => true
           case Some(k) => PlacedClear(t, arena, t[k].End(), alignment, bytes)
  }

  lemma TurnDecides(t: seq<Allocation>, arena: nat, cursor: nat, point: nat, alignment: nat, best: nat)
    requires NonEmpty(t) && alignment > 0 && point <= arena && GapEnd(t, arena, point) >= point
    requires forall bytes: nat :: PlacedClear(t, arena, cursor, alignment, bytes) <==>
                                    PlacedTurn(t, arena, point, alignment, bytes)
    ensures var gap: nat := GapEnd(t, arena, point) - point;
            PlacesClear(t, arena, cursor, alignment, best) <==>
              && (gap > best ==> !Straddled(t, point))
              && match NextAt(t, point)
                 case None => true
                 case Some(k) => PlacesClear(t, arena, t[k].End(), alignment, if gap > best then gap else best)
  {
    hide PlacedClear, Straddled, NextAt;
    var gap: nat := GapEnd(t, arena, point) - point;
    var next := NextAt(t, point);
    if PlacesClear(t, arena, cursor, alignment, best) {
      if gap > best {
        assert PlacedClear(t, arena, cursor, alignment, gap);
      }
      forall bytes: nat | bytes > best && bytes > gap && next.Some?
        ensures PlacedClear(t, arena, t[next.value].End(), alignment, bytes)
      {
        assert PlacedClear(t, arena, cursor, alignment, bytes);
      }
    } else {
      var bytes: nat :| bytes > best && !PlacedClear(t, arena, cursor, alignment, bytes);
      assert !PlacedTurn(t, arena, point, alignment, bytes);
    }
  }

  /**
   * When every request is placed clear of the live blocks, whatever its size: if and only if no block straddles
   * a point of the scan's path whose gap is larger than all before it.
   */
  lemma EveryPlacementIsClearIff(t: seq<Allocation>, arena: nat, alignment: nat)
    requires WellFormed(t, arena) && NonEmpty(t) && alignment > 0
    ensures PathClear(t, arena, 0, alignment, 0) <==>
              forall bytes: nat :: bytes > 0 ==> PlacedApart(t, arena, alignment, bytes)
  {
    PathDecides(t, arena, 0, alignment, 0);
    forall bytes: nat | bytes > 0
      ensures PlacedApart(t, arena, alignment, bytes) <==> PlacedClear(t, arena, 0, alignment, bytes)
    {
      if Scan(t, arena, 0, bytes, alignment).Some? {
        PlacementIsClearUnlessStraddled(t, arena, bytes, alignment);
      }
    }
  }

  /** The request is not placed, or is placed clear of every live block. */
  ghost predicate PlacedApart(t: seq<Allocation>, arena: nat, alignment: nat, bytes: nat)
    requires NonEmpty(t) && alignment > 0
  {
    var place := Scan(t, arena, 0, bytes, alignment);
    place.Some? ==> Clear(t, place.value, bytes)
  }

  /** Blocks [0, 3) and [3, 20) with a request for 8 bytes aligned to 8 in an arena of 32: the block lands on the second. */
  lemma MisalignedBlocksCanOverlap(t: seq<Allocation>, arena: nat, bytes: nat, alignment: nat)
    requires |t| == 2 && t[0] == Allocation(0, 3, 1, true) && t[1] == Allocation(3, 17, 2, true)
    requires arena == 32 && bytes == 8 && alignment == 8
    ensures WellFormed(t, arena) && NonEmpty(t)
    ensures Scan(t, arena, 0, bytes, alignment) == Some(8) && !Clear(t, 8, bytes)
  {
    hide Scan, WellFormed, Clear, NonEmpty;
    TwoBlocks(t, arena, 8, bytes);
    MisalignedScan(t, arena, bytes, alignment);
  }

  /** Two blocks one behind the other are well-formed, and a range that meets the second is not clear of them. */
  lemma TwoBlocks(t: seq<Allocation>, arena: nat, offset: nat, bytes: nat)
    requires |t| == 2 && Inside(t[0], arena) && Inside(t[1], arena) && t[0].End() <= t[1].offset
    requires t[1].used && Overlap(offset, bytes, t[1].offset, t[1].bytes)
    ensures WellFormed(t, arena) && NonEmpty(t) && !Clear(t, offset, bytes)
  {
  }

  lemma MisalignedScan(t: seq<Allocation>, arena: nat, bytes: nat, alignment: nat)
    requires |t| == 2 && NonEmpty(t) && t[0].offset == 0 && t[0].End() == 3 && t[0].used && t[1].offset == 3
    requires arena == 32 && bytes == 8 && alignment == 8
    ensures Scan(t, arena, 0, bytes, alignment) == Some(8)
  {
    MisalignedStep(t, arena, bytes, alignment);
    var next := NextAt(t, 0);
    assert next == Some(0);
    var cursor: nat :| cursor == 0;
    assert AlignUp(cursor, alignment) == 0;
    assert Scan(t, arena, cursor, bytes, alignment) == Scan(t, arena, 3, bytes, alignment);
  }

  lemma MisalignedStep(t: seq<Allocation>, arena: nat, bytes: nat, alignment: nat)
    requires |t| == 2 && NonEmpty(t) && t[0].offset == 0 && t[0].End() == 3 && t[1].offset == 3
    requires arena == 32 && bytes == 8 && alignment == 8
    ensures Scan(t, arena, 3, bytes, alignment) == Some(8)
  {
    assert AlignUp(3, alignment) == 8;
    assert NextAt(t, 8).None?;
  }

  // ----- table changes -----------------------------------------------------------------------------

  function FirstUnused(t: seq<Allocation>): (r: Option<nat>)
    ensures r.Some? ==> r.value < |t| && !t[r.value].used && forall i :: 0 <= i < r.value ==> t[i].used
    ensures r.None? ==> forall i :: 0 <= i < |t| ==> t[i].used
  {
    if t == [] then None
    else if !t[0].used then Some(0)
    else match FirstUnused(t[1..]) case None => None case Some(k) => Some(k + 1)
  }

  lemma FirstUnusedIs(t: seq<Allocation>, k: nat)
    requires k < |t| && !t[k].used && forall i :: 0 <= i < k ==> t[i].used
    ensures FirstUnused(t) == Some(k)
  {
  }

  function FirstWithId(t: seq<Allocation>, id: u32): (r: Option<nat>)
    ensures r.Some? ==> r.value < |t| && t[r.value].used && t[r.value].id == id
    ensures r.Some? ==> forall i :: 0 <= i < r.value ==> !(t[i].used && t[i].id == id)
    ensures r.None? ==> forall i :: 0 <= i < |t| ==> !(t[i].used && t[i].id == id)
  {
    if t == [] then None
    else if t[0].used && t[0].id == id then Some(0)
    else match FirstWithId(t[1..], id) case None => None case Some(k) => Some(k + 1)
  }

  function Following(id: u32): u32 { if id == U32_LIMIT - 1 then 1 else id + 1 }

  /** A block enters the first unused entry under the next identifier. */
  function Inserted(h: Heap, offset: nat, bytes: nat): Heap
  {
    match FirstUnused(h.table)
    case None => h
    case Some(k) => Heap(h.table[k := Allocation(offset, bytes, h.nextId, true)], Following(h.nextId))
  }

  function Released(h: Heap, id: u32): Heap
  {
    match FirstWithId(h.table, id)
    case Some(k) => if id != 0 then h.(table := h.table[k := UNUSED]) else h
    case None => h
  }

  lemma InsertedKeeps(h: Heap, arena: nat, offset: nat, bytes: nat)
    requires WellFormed(h.table, arena) && bytes > 0 && offset + bytes <= arena && Clear(h.table, offset, bytes)
    ensures WellFormed(Inserted(h, offset, bytes).table, arena)
  {
  }

  lemma ReleasedKeeps(h: Heap, arena: nat, id: u32)
    requires WellFormed(h.table, arena)
    ensures WellFormed(Released(h, id).table, arena)
  {
  }

  // ----- runs whose alignments never grow ---------------------------------------------------------------------

  datatype Op = Allocate(bytes: nat) | AllocateAt(offset: nat, bytes: nat) | Release(id: u32)

  function AllocatedAt(h: Heap, arena: nat, offset: nat, bytes: nat): Heap
  {
    if || bytes == 0 || offset > arena || bytes > arena - offset
       || (exists i :: 0 <= i < |h.table| && h.table[i].used
                       && Overlap(offset, bytes, h.table[i].offset, h.table[i].bytes))
    then h
    else Inserted(h, offset, bytes)
  }

  function Allocated(h: Heap, arena: nat, bytes: nat, alignment: nat): Heap
    requires NonEmpty(h.table)
  {
    if bytes == 0 || !PowerOfTwo(alignment) then h
    else match Scan(h.table, arena, 0, bytes, alignment) case None => h case Some(p) => Inserted(h, p, bytes)
  }

  ghost function Apply(h: Heap, arena: nat, alignment: nat, op: Op): Heap
    requires NonEmpty(h.table) && alignment > 0
  {
    match op
    case Allocate(bytes) => Allocated(h, arena, bytes, alignment)
    case AllocateAt(offset, bytes) => AllocatedAt(h, arena, offset, bytes)
    case Release(id) => Released(h, id)
  }

  /** A run from an empty table in which operation `i` asks for `alignments[i]`. */
  ghost predicate AnyRun(hs: seq<Heap>, ops: seq<Op>, alignments: seq<nat>, arena: nat)
  {
    && |hs| == |ops| + 1 == |alignments| + 1
    && (forall i :: 0 <= i < |hs[0].table| ==> !hs[0].table[i].used)
    && (forall i :: 0 <= i < |ops| ==> alignments[i] > 0)
    && (forall i :: 0 <= i < |ops| ==> (NonEmpty(hs[i].table) ==> hs[i + 1] == Apply(hs[i], arena, alignments[i], ops[i])))
  }

  /** And fixed placements are on its multiples. */
  ghost predicate RunWith(hs: seq<Heap>, ops: seq<Op>, alignments: seq<nat>, arena: nat)
  {
    && AnyRun(hs, ops, alignments, arena)
    && (forall i :: 0 <= i < |ops| ==> (ops[i].AllocateAt? ==> ops[i].offset % alignments[i] == 0))
  }

  /**
   * Any run in which every alignment divides the one before it keeps the arena well-formed, and the offsets aligned to
   * what was last asked for, so first fit stays exact throughout.
   */
  lemma {:induction false} DividingAlignmentsStayWellFormed(hs: seq<Heap>, ops: seq<Op>, alignments: seq<nat>,
                                                            arena: nat, n: nat)
    requires RunWith(hs, ops, alignments, arena) && n < |hs|
    requires forall i :: 0 < i < |alignments| ==> alignments[i - 1] % alignments[i] == 0
    ensures WellFormed(hs[n].table, arena) && NonEmpty(hs[n].table)
    ensures n > 0 ==> AlignedTo(hs[n].table, alignments[n - 1])
  {
    if n > 0 {
      DividingAlignmentsStayWellFormed(hs, ops, alignments, arena, n - 1);
      if n > 1 {
        assert alignments[n - 2] % alignments[n - 1] == 0;
        AlignedToDivisor(hs[n - 1].table, alignments[n - 2], alignments[n - 1]);
      }
      ApplyKeeps(hs[n - 1], arena, alignments[n - 1], ops[n - 1]);
      assert hs[n - 1 + 1] == Apply(hs[n - 1], arena, alignments[n - 1], ops[n - 1]);
      hide Apply, WellFormed, NonEmpty, AlignedTo;
    }
  }

  lemma AlignedToDivisor(t: seq<Allocation>, a: nat, b: nat)
    requires a > 0 && b > 0 && a % b == 0 && AlignedTo(t, a)
    ensures AlignedTo(t, b)
  {
    forall i | 0 <= i < |t| && t[i].used
      ensures t[i].offset % b == 0
    {
      MultipleOfMultiple(t[i].offset, a, b);
    }
  }

  lemma MultipleOfMultiple(x: nat, a: nat, b: nat)
    requires a > 0 && b > 0 && x % a == 0 && a % b == 0
    ensures x % b == 0
  {
    var k, m := x / a, a / b;
    assert x == a * k && a == b * m;
    Regroup(b, m, k);
    MultipleIsAligned(m * k, b);
  }

  lemma Regroup(b: nat, m: nat, k: nat)
    ensures (b * m) * k == b * (m * k)
  {
  }

  /** Powers of two, the only alignments that are accepted, divide all that are no smaller. */
  lemma {:induction false} PowersDivide(a: nat, b: nat)
    requires PowerOfTwo(a) && PowerOfTwo(b) && b <= a
    ensures a % b == 0
  {
    if b > 1 {
      PowersDivide(a / 2, b / 2);
      var k := (a / 2) / (b / 2);
      assert a / 2 == (b / 2) * k;
      Regroup(2, b / 2, k);
      assert b == 2 * (b / 2) && a == 2 * (a / 2);
      MultipleIsAligned(k, b);
    }
  }

  /** In particular any run whose alignments are powers of two and never grow. */
  lemma FallingAlignmentsStayWellFormed(hs: seq<Heap>, ops: seq<Op>, alignments: seq<nat>, arena: nat, n: nat)
    requires RunWith(hs, ops, alignments, arena) && n < |hs|
    requires forall i :: 0 <= i < |alignments| ==> PowerOfTwo(alignments[i])
    requires forall i :: 0 < i < |alignments| ==> alignments[i] <= alignments[i - 1]
    ensures WellFormed(hs[n].table, arena) && NonEmpty(hs[n].table)
    ensures n > 0 ==> AlignedTo(hs[n].table, alignments[n - 1])
  {
    forall i | 0 < i < |alignments|
      ensures alignments[i - 1] % alignments[i] == 0
    {
      PowersDivide(alignments[i - 1], alignments[i]);
    }
    DividingAlignmentsStayWellFormed(hs, ops, alignments, arena, n);
  }

  /** And any run with one alignment, a power of two or not. */
  lemma OneAlignmentStaysWellFormed(hs: seq<Heap>, ops: seq<Op>, arena: nat, alignment: nat, n: nat)
    requires alignment > 0 && |hs| == |ops| + 1 && n < |hs|
    requires forall i :: 0 <= i < |hs[0].table| ==> !hs[0].table[i].used
    requires forall i :: 0 <= i < |ops| ==> (ops[i].AllocateAt? ==> ops[i].offset % alignment == 0)
    requires forall i :: 0 <= i < |ops| ==>
               NonEmpty(hs[i].table) ==> hs[i + 1] == Apply(hs[i], arena, alignment, ops[i])
    ensures WellFormed(hs[n].table, arena) && NonEmpty(hs[n].table) && AlignedTo(hs[n].table, alignment)
  {
    var alignments := seq(|ops|, i => alignment);
    forall i | 0 < i < |alignments|
      ensures alignments[i - 1] % alignments[i] == 0
    {
      MultipleIsAligned(1, alignment);
    }
    assert RunWith(hs, ops, alignments, arena);
    DividingAlignmentsStayWellFormed(hs, ops, alignments, arena, n);
  }

  lemma ApplyKeeps(h: Heap, arena: nat, alignment: nat, op: Op)
    requires alignment > 0
    requires WellFormed(h.table, arena) && NonEmpty(h.table) && AlignedTo(h.table, alignment)
    requires op.AllocateAt? ==> op.offset % alignment == 0
    ensures var r := Apply(h, arena, alignment, op).table;
            WellFormed(r, arena) && NonEmpty(r) && AlignedTo(r, alignment)
  {
    match op {
      case Allocate(bytes) =>
        if bytes > 0 {
          FirstFitIsLeast(h.table, arena, bytes, alignment);
          var p := Scan(h.table, arena, 0, bytes, alignment);
          if p.Some? {
            InsertedKeeps(h, arena, p.value, bytes);
          }
        }
      case AllocateAt(offset, bytes) =>
        if Apply(h, arena, alignment, op) != h {
          InsertedKeeps(h, arena, offset, bytes);
        }
      case Release(id) => ReleasedKeeps(h, arena, id);
    }
  }

  // ----- identifiers ---------------------------------------------------------------------------------

  /** Live blocks are not empty, and their identifiers are distinct, valid and behind the next one. */
  ghost predicate Named(h: Heap)
  {
    && NonEmpty(h.table)
    && (forall i :: 0 <= i < |h.table| && h.table[i].used ==> 1 <= h.table[i].id < h.nextId)
    && (forall i, j :: 0 <= i < j < |h.table| && h.table[i].used && h.table[j].used ==> h.table[i].id != h.table[j].id)
  }

  lemma NamedThrough(h: Heap, arena: nat, alignment: nat, op: Op)
    requires Named(h) && 1 <= h.nextId < U32_LIMIT - 1 && alignment > 0
    ensures var g := Apply(h, arena, alignment, op);
            Named(g) && h.nextId <= g.nextId <= h.nextId + 1
  {
    match op {
      case Allocate(bytes) =>
        if bytes > 0 && PowerOfTwo(alignment) {
          var p := Scan(h.table, arena, 0, bytes, alignment);
          if p.Some? {
            NamedInserted(h, p.value, bytes);
          }
        }
      case AllocateAt(offset, bytes) =>
        if bytes > 0 {
          NamedInserted(h, offset, bytes);
        }
      case Release(id) =>
    }
  }

  lemma NamedInserted(h: Heap, offset: nat, bytes: nat)
    requires Named(h) && 1 <= h.nextId < U32_LIMIT - 1 && bytes > 0
    ensures var g := Inserted(h, offset, bytes);
            Named(g) && h.nextId <= g.nextId <= h.nextId + 1
  {
  }

  /**
   * Over any run shorter than the identifiers go, whatever alignments are mixed: live identifiers are distinct and none
   * is the invalid one, and releasing one takes exactly its own block away.
   */
  lemma {:induction false} IdentifiersStayDistinct(hs: seq<Heap>, ops: seq<Op>, alignments: seq<nat>, arena: nat, n: nat)
    requires AnyRun(hs, ops, alignments, arena) && n < |hs| && n < U32_LIMIT - 1 && hs[0].nextId == 1
    ensures Named(hs[n]) && 1 <= hs[n].nextId <= n + 1
    ensures forall k :: 0 <= k < |hs[n].table| && hs[n].table[k].used ==>
              Released(hs[n], hs[n].table[k].id) == hs[n].(table := hs[n].table[k := UNUSED])
  {
    if n > 0 {
      IdentifiersStayDistinct(hs, ops, alignments, arena, n - 1);
      NamedThrough(hs[n - 1], arena, alignments[n - 1], ops[n - 1]);
      assert hs[n - 1 + 1] == Apply(hs[n - 1], arena, alignments[n - 1], ops[n - 1]);
    }
    hide Apply;
    forall k | 0 <= k < |hs[n].table| && hs[n].table[k].used
      ensures Released(hs[n], hs[n].table[k].id) == hs[n].(table := hs[n].table[k := UNUSED])
    {
      assert FirstWithId(hs[n].table, hs[n].table[k].id) == Some(k);
    }
  }

  /** A run and one more operation. */
  lemma Extended(hs: seq<Heap>, ops: seq<Op>, alignments: seq<nat>, arena: nat, op: Op, h: Heap)
    requires AnyRun(hs, ops, alignments, arena) && NonEmpty(hs[|ops|].table) && h == Apply(hs[|ops|], arena, 1, op)
    ensures AnyRun(hs + [h], ops + [op], alignments + [1], arena) && (hs + [h])[|ops + [op]|] == h
  {
    hide Apply, NonEmpty;
  }

  /** One block of one byte is kept. */
  function Kept(nextId: u32): Heap { Heap([Allocation(0, 1, 1, true), UNUSED], nextId) }

  /** Another is taken under that identifier. */
  function Doubled(id: u32, nextId: u32): Heap { Heap([Allocation(0, 1, 1, true), Allocation(1, 1, id, true)], nextId) }

  lemma OneCycle(id: u32)
    requires id > 0
    ensures AllocatedAt(Kept(id), 2, 1, 1) == Doubled(id, Following(id))
    ensures id > 1 ==> Released(Doubled(id, Following(id)), id) == Kept(Following(id))
  {
    var t := Kept(id).table;
    assert forall i :: 0 <= i < |t| && t[i].used ==> !Overlap(1, 1, t[i].offset, t[i].bytes);
    FirstUnusedIs(t, 1);
    assert FirstWithId(Doubled(id, Following(id)).table, 1) == Some(0);
    var r := FirstWithId(Doubled(id, Following(id)).table, id);
    assert id > 1 ==> Doubled(id, Following(id)).table[1].id == id;
  }

  /** A second block is taken and released `n` times. */
  lemma {:induction false} Cycles(n: nat) returns (hs: seq<Heap>, ops: seq<Op>, alignments: seq<nat>)
    requires n <= U32_LIMIT - 3
    ensures AnyRun(hs, ops, alignments, 2) && hs[0] == Heap([UNUSED, UNUSED], 1) && |ops| == 2 * n + 1
    ensures hs[|ops|] == Kept(n + 2)
  {
    if n == 0 {
      FirstUnusedIs([UNUSED, UNUSED], 0);
      hs, ops, alignments := [Heap([UNUSED, UNUSED], 1), Kept(2)], [AllocateAt(0, 1)], [1];
      return;
    }
    hs, ops, alignments := Cycles(n - 1);
    hs, ops, alignments := Cycle(hs, ops, alignments, n + 1);
  }

  lemma Cycle(hs: seq<Heap>, ops: seq<Op>, alignments: seq<nat>, id: u32)
    returns (hs': seq<Heap>, ops': seq<Op>, alignments': seq<nat>)
    requires AnyRun(hs, ops, alignments, 2) && hs[|ops|] == Kept(id) && id > 1
    ensures AnyRun(hs', ops', alignments', 2) && hs'[0] == hs[0] && |ops'| == |ops| + 2
    ensures hs'[|ops'|] == Kept(Following(id))
  {
    OneCycle(id);
    var taken, kept := Doubled(id, Following(id)), Kept(Following(id));
    Extended(hs, ops, alignments, 2, AllocateAt(1, 1), taken);
    hs', ops', alignments' := hs + [taken], ops + [AllocateAt(1, 1)], alignments + [1];
    Extended(hs', ops', alignments', 2, Op.Release(id), kept);
    hs', ops', alignments' := hs' + [kept], ops' + [Op.Release(id)], alignments' + [1];
  }

  /** After every identifier has been given out, the next block takes that of one that is still live. */
  lemma IdentifiersComeRound() returns (hs: seq<Heap>, ops: seq<Op>, alignments: seq<nat>)
    ensures AnyRun(hs, ops, alignments, 2) && hs[0] == Heap([UNUSED, UNUSED], 1)
    ensures var t := hs[|ops|].table;
            |t| == 2 && t[0].used && t[1].used && t[0].id == t[1].id
  {
    hs, ops, alignments := Cycles(U32_LIMIT - 3);
    hs, ops, alignments := Cycle(hs, ops, alignments, U32_LIMIT - 1);
    OneCycle(1);
    var last := Doubled(1, 2);
    Extended(hs, ops, alignments, 2, AllocateAt(1, 1), last);
    hs, ops, alignments := hs + [last], ops + [AllocateAt(1, 1)], alignments + [1];
  }

  // ----- free space --------------------------------------------------------------------------------

  /** All `length` bytes from `start` exist and are free. */
  ghost predicate FreeRun(t: seq<Allocation>, arena: nat, start: nat, length: nat)
  {
    start + length <= arena && Clear(t, start, length)
  }

  /** `longest` is the length of the longest free extent. */
  ghost predicate LongestFree(t: seq<Allocation>, arena: nat, longest: nat)
  {
    && (exists start: nat :: FreeRun(t, arena, start, longest))
    && (forall start: nat, length: nat :: length > 0 && FreeRun(t, arena, start, length) ==> length <= longest)
  }

  ghost function Span(lo: nat, hi: nat): set<nat>
    decreases hi
  {
    if lo < hi then Span(lo, hi - 1) + {hi - 1} else {}
  }

  lemma {:induction false} SpanHas(lo: nat, hi: nat)
    ensures forall x: nat :: x in Span(lo, hi) <==> lo <= x < hi
    ensures lo <= hi ==> |Span(lo, hi)| == hi - lo
    decreases hi
  {
    if lo < hi {
      SpanHas(lo, hi - 1);
    }
  }

  ghost predicate TakenAt(t: seq<Allocation>, k: nat, x: nat)
    requires k <= |t|
  {
    exists i :: 0 <= i < k && t[i].used && t[i].offset <= x < t[i].End()
  }

  /** The bytes at which some live block among the first `k` entries lies. */
  ghost function TakenBytes(t: seq<Allocation>, k: nat): set<nat>
    requires k <= |t|
  {
    if k == 0 then {} else TakenBytes(t, k - 1) + BlockBytes(t[k - 1])
  }

  ghost function BlockBytes(b: Allocation): set<nat>
  {
    if b.used then Span(b.offset, b.End()) else {}
  }

  lemma {:induction false} TakenHas(t: seq<Allocation>, k: nat, x: nat)
    requires k <= |t|
    ensures x in TakenBytes(t, k) <==> TakenAt(t, k, x)
  {
    if k > 0 {
      TakenHas(t, k - 1, x);
      SpanHas(t[k - 1].offset, t[k - 1].End());
    }
  }

  function LiveTotal(t: seq<Allocation>, k: nat): nat
    requires k <= |t|
  {
    if k == 0 then 0 else LiveTotal(t, k - 1) + (if t[k - 1].used then t[k - 1].bytes else 0)
  }

  lemma {:induction false} LiveTotalCounts(t: seq<Allocation>, arena: nat, k: nat)
    requires WellFormed(t, arena) && k <= |t|
    ensures LiveTotal(t, k) == |TakenBytes(t, k)|
  {
    if k > 0 {
      LiveTotalCounts(t, arena, k - 1);
      SpanHas(t[k - 1].offset, t[k - 1].End());
      TakenApart(t, arena, k);
      UnionSize(TakenBytes(t, k - 1), BlockBytes(t[k - 1]));
    }
  }

  lemma UnionSize(a: set<nat>, b: set<nat>)
    requires a !! b
    ensures |a + b| == |a| + |b|
  {
  }

  lemma TakenApart(t: seq<Allocation>, arena: nat, k: nat)
    requires WellFormed(t, arena) && 0 < k <= |t|
    ensures TakenBytes(t, k - 1) !! BlockBytes(t[k - 1])
  {
    var b := t[k - 1];
    if x: nat :| x in TakenBytes(t, k - 1) && x in BlockBytes(b) {
      TakenHas(t, k - 1, x);
      SpanHas(b.offset, b.End());
    }
  }

  /** The free bytes of the arena. */
  ghost function FreeSet(t: seq<Allocation>, arena: nat): set<nat>
  {
    Span(0, arena) - TakenBytes(t, |t|)
  }

  lemma FreeSetIs(t: seq<Allocation>, arena: nat, x: nat)
    requires NonEmpty(t)
    ensures x in FreeSet(t, arena) <==> FreeRun(t, arena, x, 1)
  {
    SpanHas(0, arena);
    TakenHas(t, |t|, x);
    if !TakenAt(t, |t|, x) {
      forall i | 0 <= i < |t| && t[i].used
        ensures !Overlap(x, 1, t[i].offset, t[i].bytes)
      {
        assert !(t[i].offset <= x < t[i].End());
      }
    }
  }

  lemma TotalFits(t: seq<Allocation>, arena: nat, k: nat)
    requires WellFormed(t, arena) && k <= |t|
    ensures LiveTotal(t, k) <= arena
    ensures k == |t| ==> arena - LiveTotal(t, k) == |FreeSet(t, arena)|
  {
    LiveTotalCounts(t, arena, k);
    SpanHas(0, arena);
    forall x: nat
      ensures x in TakenBytes(t, k) ==> x in Span(0, arena)
    {
      TakenHas(t, k, x);
      if TakenAt(t, k, x) {
        var i :| 0 <= i < k && t[i].used && t[i].offset <= x < t[i].End();
        assert Inside(t[i], arena);
      }
    }
    SubsetSize(TakenBytes(t, k), Span(0, arena));
  }

  lemma SubsetSize(a: set<nat>, b: set<nat>)
    requires a <= b
    ensures |a| <= |b| && |b - a| == |b| - |a|
  {
    assert b == a + (b - a);
  }

  // ----- the class -----------------------------------------------------------------------------------

  class FragmentingInternalHeap {
    const arena: nat
    const allocations: array<Allocation>
    var nextId: u32

    constructor (arena: nat, capacity: nat)
      ensures this.arena == arena && fresh(allocations) && Valid()
      ensures allocations.Length == capacity && State() == Heap(seq(capacity, i => UNUSED), 1)
    {
      this.arena := arena;
      allocations := new Allocation[capacity](i => UNUSED);
      nextId := 1;
    }

    function State(): Heap
      reads this, allocations
    {
      Heap(allocations[..], nextId)
    }

    /**
     * Live blocks are not empty and lie in the arena, and identifiers are never the invalid one. Every operation
     * keeps this, whatever alignments are mixed; being well-formed asks besides that no two blocks meet.
     */
    ghost predicate Valid()
      reads this, allocations
    {
      Contained(allocations[..], arena) && nextId != 0
    }

    method AllocationAtOrAfter(offset: nat) returns (next: Option<nat>)
      ensures next == NextAt(allocations[..], offset)
    {
      next := None;
      for k := 0 to allocations.Length
        invariant next == NextAmong(allocations[..], k, offset)
      {
        var b := allocations[k];
        if !b.used || b.offset < offset {
          continue;
        }
        if next.None? || b.offset < allocations[next.value].offset {
          next := Some(k);
        }
      }
    }

    method Insert(offset: nat, bytes: nat) returns (id: u32)
      requires nextId != 0
      modifies this, allocations
      ensures State() == Inserted(old(State()), offset, bytes)
      ensures nextId != 0
      ensures id == if FirstUnused(old(allocations[..])).Some? then old(nextId) else 0
    {
      for k := 0 to allocations.Length
        invariant State() == old(State())
        invariant forall i :: 0 <= i < k ==> allocations[i].used
      {
        if !allocations[k].used {
          assert forall i :: 0 <= i < k ==> allocations[..][i].used;
          FirstUnusedIs(allocations[..], k);
          id := nextId;
          nextId := if nextId == U32_LIMIT - 1 then 1 else nextId + 1;
          allocations[k] := Allocation(offset, bytes, id, true);
          return;
        }
      }
      assert FirstUnused(allocations[..]).None?;
      id := 0;
    }

    method Allocate(bytes: nat, alignment: nat) returns (id: u32)
      requires Valid()
      modifies this, allocations
      ensures Valid()
      // first fit, in the first unused entry
      ensures State() == Allocated(old(State()), arena, bytes, alignment)
      ensures id != 0 <==>
                && bytes != 0 && PowerOfTwo(alignment) && FirstUnused(old(allocations[..])).Some?
                && Scan(old(allocations[..]), arena, 0, bytes, alignment).Some?
      // what that means when the live offsets are multiples of the alignment
      ensures (&& WellFormed(old(allocations[..]), arena) && alignment > 0 && AlignedTo(old(allocations[..]), alignment)) ==>
                WellFormed(allocations[..], arena) && AlignedTo(allocations[..], alignment)
    {
      if bytes == 0 || !PowerOfTwo(alignment) {
        return 0;
      }
      ghost var t := allocations[..];
      if WellFormed(t, arena) && AlignedTo(t, alignment) {
        ApplyKeeps(State(), arena, alignment, Op.Allocate(bytes));
      }
      ScanAhead(t, arena, 0, bytes, alignment);
      var place := FirstFit(bytes, alignment);
      if place.Some? {
        id := Insert(place.value, bytes);
      } else {
        id := 0;
      }
    }

    method FirstFit(bytes: nat, alignment: nat) returns (place: Option<nat>)
      requires Valid() && alignment > 0
      ensures place == Scan(allocations[..], arena, 0, bytes, alignment)
    {
      hide AlignUp, NextAt, NextAmong;
      var cursor := 0;
      while cursor <= arena
        invariant Scan(allocations[..], arena, cursor, bytes, alignment) ==
                  Scan(allocations[..], arena, 0, bytes, alignment)
        decreases arena + 1 - cursor
      {
        var aligned := AlignUp(cursor, alignment);
        AlignUpIsLeast(cursor, alignment);
        if aligned > arena || bytes > arena - aligned {
          return None;
        }
        var next := AllocationAtOrAfter(aligned);
        if next.None? || aligned + bytes <= allocations[next.value].offset {
          return Some(aligned);
        }
        cursor := allocations[next.value].offset + allocations[next.value].bytes;
      }
      place := None;
    }

    method Overlaps(offset: nat, bytes: nat) returns (found: bool)
      ensures found <==> !Clear(allocations[..], offset, bytes)
    {
      for k := 0 to allocations.Length
        invariant forall i :: 0 <= i < k && allocations[i].used ==>
                    !Overlap(offset, bytes, allocations[i].offset, allocations[i].bytes)
      {
        if allocations[k].used && Overlap(offset, bytes, allocations[k].offset, allocations[k].bytes) {
          assert allocations[..][k].used;
          return true;
        }
      }
      found := false;
    }

    method AllocateAt(offset: nat, bytes: nat) returns (id: u32)
      requires Valid()
      modifies this, allocations
      ensures Valid()
      ensures State() == AllocatedAt(old(State()), arena, offset, bytes)
      ensures WellFormed(old(allocations[..]), arena) ==> WellFormed(allocations[..], arena)
      ensures id != 0 <==>
                && bytes != 0 && offset + bytes <= arena && Clear(old(allocations[..]), offset, bytes)
                && FirstUnused(old(allocations[..])).Some?
    {
      if bytes == 0 || offset > arena || bytes > arena - offset {
        return 0;
      }
      var occupied := Overlaps(offset, bytes);
      if occupied {
        return 0;
      }
      if WellFormed(allocations[..], arena) {
        InsertedKeeps(State(), arena, offset, bytes);
      }
      id := Insert(offset, bytes);
    }

    method Release(id: u32) returns (found: bool)
      requires Valid()
      modifies allocations
      ensures Valid()
      ensures State() == Released(old(State()), id)
      ensures found <==> id != 0 && FirstWithId(old(allocations[..]), id).Some?
      ensures WellFormed(old(allocations[..]), arena) ==> WellFormed(allocations[..], arena)
    {
      if id == 0 {
        return false;
      }
      if WellFormed(allocations[..], arena) {
        ReleasedKeeps(State(), arena, id);
      }
      for k := 0 to allocations.Length
        invariant State() == old(State())
        invariant forall i :: 0 <= i < k ==> !(allocations[i].used && allocations[i].id == id)
      {
        if allocations[k].used && allocations[k].id == id {
          assert FirstWithId(allocations[..], id) == Some(k) by {
            var r := FirstWithId(allocations[..], id);
            assert allocations[..][k].used && allocations[..][k].id == id;
            assert r.Some? && allocations[r.value].used && allocations[r.value].id == id;
          }
          allocations[k] := UNUSED;
          return true;
        }
      }
      assert FirstWithId(allocations[..], id).None?;
      found := false;
    }

    /** In a well-formed arena this is the number of free bytes. */
    method FreeBytes() returns (free: nat)
      ensures WellFormed(allocations[..], arena) ==> free == |FreeSet(allocations[..], arena)|
    {
      var taken := 0;
      for k := 0 to allocations.Length
        invariant taken == LiveTotal(allocations[..], k)
      {
        taken := taken + (if allocations[k].used then allocations[k].bytes else 0);
      }
      if WellFormed(allocations[..], arena) {
        TotalFits(allocations[..], arena, allocations.Length);
      }
      free := if taken <= arena then arena - taken else 0;
    }

    /** In a well-formed arena this is the longest free extent. */
    method LargestFreeBlock() returns (largest: nat)
      requires Valid()
      ensures WellFormed(allocations[..], arena) ==> LongestFree(allocations[..], arena, largest)
    {
      ghost var t := allocations[..];
      ghost var wellFormed := WellFormed(t, arena);
      var cursor := 0;
      largest := 0;
      ghost var at: nat := 0;
      while true
        invariant cursor <= arena
        invariant wellFormed ==> Passed(t, cursor) && FreeRun(t, arena, at, largest)
        invariant wellFormed ==> forall start: nat, length: nat ::
                    length > 0 && start < cursor && FreeRun(t, arena, start, length) ==> length <= largest
        decreases arena - cursor
      {
        var next := AllocationAtOrAfter(cursor);
        var end := if next.None? then arena else allocations[next.value].offset;
        assert next.Some? ==> Inside(t[next.value], arena);
        assert wellFormed ==> FreeRun(t, arena, cursor, end - cursor);
        ghost var before := largest;
        if end >= cursor && end - cursor > largest {
          largest := end - cursor;
          at := cursor;
        }
        if wellFormed {
          GapIsLongest(t, arena, cursor, next, before, largest);
        }
        if next.None? {
          break;
        }
        if wellFormed {
          PassedNext(t, arena, cursor, next.value);
        }
        cursor := allocations[next.value].offset + allocations[next.value].bytes;
      }
    }

    lemma GapIsLongest(t: seq<Allocation>, arena: nat, cursor: nat, next: Option<nat>, before: nat, largest: nat)
      requires WellFormed(t, arena) && Passed(t, cursor) && cursor <= arena && next == NextAt(t, cursor)
      requires largest >= before
      requires largest >= (if next.None? then arena else t[next.value].offset) - cursor
      requires forall start: nat, length: nat ::
                 length > 0 && start < cursor && FreeRun(t, arena, start, length) ==> length <= before
      ensures forall start: nat, length: nat ::
                length > 0 && (next.Some? ==> start < t[next.value].End()) && FreeRun(t, arena, start, length) ==>
                  length <= largest
    {
      forall start: nat, length: nat
        | length > 0 && (next.Some? ==> start < t[next.value].End()) && FreeRun(t, arena, start, length)
        ensures length <= largest
      {
        if start >= cursor && next.Some? {
          assert !Overlap(start, length, t[next.value].offset, t[next.value].bytes);
        }
      }
    }

    method CanAllocate(bytes: nat) returns (can: bool)
      requires Valid()
      // it agrees with allocate(bytes, 1) whenever the table has an unused entry
      ensures WellFormed(allocations[..], arena) ==>
                (can <==> bytes != 0 && Scan(allocations[..], arena, 0, bytes, 1).Some?)
    {
      if bytes == 0 {
        return false;
      }
      var largest := LargestFreeBlock();
      can := largest >= bytes;
      if WellFormed(allocations[..], arena) {
        RunMeansFit(allocations[..], arena, bytes, largest);
      }
    }

    lemma RunMeansFit(t: seq<Allocation>, arena: nat, bytes: nat, largest: nat)
      requires WellFormed(t, arena) && NonEmpty(t) && bytes > 0 && LongestFree(t, arena, largest)
      ensures largest >= bytes <==> Scan(t, arena, 0, bytes, 1).Some?
    {
      FirstFitIsLeast(t, arena, bytes, 1);
      if largest >= bytes {
        var start: nat :| FreeRun(t, arena, start, largest);
        assert Feasible(t, arena, start, bytes, 1);
      }
      if Scan(t, arena, 0, bytes, 1).Some? {
        assert FreeRun(t, arena, Scan(t, arena, 0, bytes, 1).value, bytes);
      }
    }

    /** True exactly on well-formed arenas. */
    method IntegrityOk() returns (ok: bool)
      ensures ok <==> WellFormed(allocations[..], arena)
    {
      ghost var t := allocations[..];
      var total := 0;
      for left := 0 to allocations.Length
        invariant total == LiveTotal(t, left)
        invariant forall i :: 0 <= i < left && t[i].used ==> Inside(t[i], arena)
        invariant forall i, j :: 0 <= i < left && i < j < |t| && t[i].used && t[j].used ==>
                    !Overlap(t[i].offset, t[i].bytes, t[j].offset, t[j].bytes)
      {
        var a := allocations[left];
        if !a.used {
          continue;
        }
        if a.bytes == 0 || a.offset > arena || a.bytes > arena - a.offset {
          assert !Inside(t[left], arena);
          return false;
        }
        total := total + a.bytes;
        if total > arena {
          if WellFormed(t, arena) {
            TotalFits(t, arena, left + 1);
          }
          return false;
        }
        for right := left + 1 to allocations.Length
          invariant forall j :: left < j < right && t[j].used ==> !Overlap(a.offset, a.bytes, t[j].offset, t[j].bytes)
        {
          var b := allocations[right];
          if b.used && Overlap(a.offset, a.bytes, b.offset, b.bytes) {
            assert t[left].used && t[right].used;
            return false;
          }
        }
      }
      ok := true;
    }
  }
}
