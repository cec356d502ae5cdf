/** Where a partition is placed past the end of the space, and exactly for which tables. */
module PastEnd {
  import opened PartInfos
  import opened Placement
  import opened PlacementSafety
  import opened Validation
  import opened Termination
  import opened ValidationLimits

  // The same search with another limit

  /** A list that is tight for one limit is tight for a larger one. */
  lemma SpacedWider(list: seq<Entry>, minOffset: nat, limit: nat, wide: nat, tight: bool)
    requires Spaced(list, minOffset, limit, tight) && limit <= wide
    ensures Spaced(list, minOffset, wide, tight)
  {
  }

  /** Only the room behind the last entry depends on the limit. */
  lemma {:induction false} SameInnerGap(placed: seq<Entry>, k: nat, size: nat, a: nat, b: nat)
    requires k < |placed|
    requires RoomAfter(placed, |placed| - 1, a) >= size <==> RoomAfter(placed, |placed| - 1, b) >= size
    ensures FindGap(placed, k, size, a) == FindGap(placed, k, size, b)
    decreases |placed| - k
  {
    if k + 1 < |placed| {
      SameInnerGap(placed, k + 1, size, a, b);
    }
  }

  /** The first gap that is large enough does not depend on a limit that leaves it large enough. */
  lemma {:induction false} SameGap(placed: seq<Entry>, k: nat, size: nat, minOffset: nat, limit: nat, wide: nat)
    requires Bounds(minOffset, limit) && Bounds(minOffset, wide) && limit <= wide && k < |placed|
    requires Spaced(placed, minOffset, limit, true)
    ensures var near, far := FindGap(placed, k, size, limit - 1), FindGap(placed, k, size, wide - 1);
            && (near.At? ==> far == near)
            && (far.At? && far.end + size <= limit ==> near == far)
    decreases |placed| - k
  {
    SpacedWider(placed, minOffset, limit, wide, true);
    RoomIsRoom(placed, k, size, minOffset, limit);
    RoomIsRoom(placed, k, size, minOffset, wide);
    if k + 1 < |placed| {
      SameGap(placed, k + 1, size, minOffset, limit, wide);
    }
  }

  /** So it is with the next place. */
  lemma SamePlace(placed: seq<Entry>, size: nat, minOffset: nat, limit: nat, wide: nat)
    requires Bounds(minOffset, limit) && Bounds(minOffset, wide) && limit <= wide
    requires Spaced(placed, minOffset, limit, true)
    ensures var near := NextPlace(placed, size, minOffset, limit - 1);
            var far := NextPlace(placed, size, minOffset, wide - 1);
            && (near.At? ==> far == near)
            && (far.At? && far.end + size <= limit ==> near == far)
  {
    if placed != [] {
      SameGap(placed, 0, size, minOffset, limit, wide);
    }
  }

  /** Placing that succeeds below one limit goes the same way below a larger one. */
  lemma {:induction false} AssignWider(queue: seq<Entry>, placed: seq<Entry>, minOffset: nat, limit: nat, wide: nat)
    requires Bounds(minOffset, limit) && Bounds(minOffset, wide) && limit <= wide
    requires Spaced(placed, minOffset, limit, true) && Waiting(queue, minOffset, limit)
    requires Assign(queue, placed, minOffset, limit - 1).Placed?
    ensures Assign(queue, placed, minOffset, wide - 1) == Assign(queue, placed, minOffset, limit - 1)
    decreases |queue|
  {
    if queue == [] {
    } else {
      var next := NextPlace(placed, queue[0].size, minOffset, limit - 1);
      SamePlace(placed, queue[0].size, minOffset, limit, wide);
      PlaceOne(placed, queue[0], next.end, minOffset, limit);
      if |queue| == 1 {
        assert queue[1..] == [];
      } else {
        AssignWider(queue[1..], Slot(placed, queue[0].(offset := next.end)), minOffset, limit, wide);
      }
    }
  }

  ghost predicate AllEndBy(list: seq<Entry>, w: nat) {
    forall k | 0 <= k < |list| :: list[k].offset + list[k].size <= w
  }

  lemma EndOfKept(list: seq<Entry>, x: Entry, w: nat)
    requires Kept(list, x) && x.offset > 0 && AllEndBy(list, w)
    ensures x.offset + x.size <= w
  {
  }

  /** Where an entry was put, it is in the end. */
  lemma PutIsKept(queue: seq<Entry>, placed: seq<Entry>, x: Entry, minOffset: nat, maxOffset: nat)
    requires Unplaced(queue) && x.offset > 0 && Assign(queue, Slot(placed, x), minOffset, maxOffset).Placed?
    ensures Kept(Assign(queue, Slot(placed, x), minOffset, maxOffset).list, x)
  {
    var j := SlotSomewhere(placed, x);
    AssignKeeps(queue, Slot(placed, x), minOffset, maxOffset);
    assert (queue + Slot(placed, x))[|queue| + j] == x;
  }

  /** And placing that stays below one limit goes the same way when that is the limit. */
  lemma {:induction false} AssignNarrower(queue: seq<Entry>, placed: seq<Entry>, minOffset: nat, limit: nat, wide: nat)
    requires Bounds(minOffset, limit) && Bounds(minOffset, wide) && limit <= wide && Unplaced(queue)
    requires Spaced(placed, minOffset, limit, true) && Waiting(queue, minOffset, limit)
    requires Assign(queue, placed, minOffset, wide - 1).Placed?
    requires AllEndBy(Assign(queue, placed, minOffset, wide - 1).list, limit)
    ensures Assign(queue, placed, minOffset, limit - 1) == Assign(queue, placed, minOffset, wide - 1)
    decreases |queue|
  {
    if queue == [] {
    } else {
      var next := NextPlace(placed, queue[0].size, minOffset, wide - 1);
      var x := queue[0].(offset := next.end);
      PutIsKept(queue[1..], placed, x, minOffset, wide - 1);
      EndOfKept(Assign(queue, placed, minOffset, wide - 1).list, x, limit);
      SamePlace(placed, x.size, minOffset, limit, wide);
      PlaceOne(placed, queue[0], next.end, minOffset, limit);
      if |queue| == 1 {
        assert queue[1..] == [];
      } else {
        AssignNarrower(queue[1..], Slot(placed, x), minOffset, limit, wide);
      }
    }
  }

  // Past the limit there is none

  /** Once the last end is past the limit, the search goes as if the space went on. */
  lemma PlaceBeyond(placed: seq<Entry>, size: nat, minOffset: nat, limit: nat, wide: nat)
    requires placed != [] && Bounds(minOffset, wide) && 0 < limit < placed[|placed| - 1].End()
    requires placed[|placed| - 1].End() + size <= wide
    ensures NextPlace(placed, size, minOffset, limit - 1) == NextPlace(placed, size, minOffset, wide - 1)
    ensures NextPlace(placed, size, minOffset, wide - 1).At?
  {
    SameInnerGap(placed, 0, size, limit - 1, wide - 1);
    LastIsRoom(placed, 0, size, wide - 1);
  }

  lemma {:induction false} LastIsRoom(placed: seq<Entry>, k: nat, size: nat, maxOffset: nat)
    requires k < |placed| && RoomAfter(placed, |placed| - 1, maxOffset) >= size
    ensures FindGap(placed, k, size, maxOffset).At?
    decreases |placed| - k
  {
    if k + 1 < |placed| {
      LastIsRoom(placed, k + 1, size, maxOffset);
    }
  }

  /** The last end does not get lower by placing one more entry, nor higher than by that entry. */
  lemma LastEnd(placed: seq<Entry>, x: Entry, end: nat, minOffset: nat, limit: nat)
    requires Bounds(minOffset, limit) && placed != [] && Spaced(placed, minOffset, limit, true)
    requires x.size > 0 && minOffset + x.size <= limit
    requires NextPlace(placed, x.size, minOffset, limit - 1) == At(end)
    ensures var l, l' := placed[|placed| - 1].End(), Slot(placed, x.(offset := end))[|placed|].End();
            l <= l' < l + x.size + ALIGN
  {
    var y := x.(offset := end);
    var j := FirstFit(placed, 0, x.size, minOffset, limit);
    assert InPlace(placed[j], minOffset, limit);
    BeforeAndAfter(placed, y, j + 1, minOffset, limit);
    SlotAfter(placed, y, j + 1);
    EndFacts(y);
  }

  /** With the last end past the limit placing never fails, and goes as if the space had no end. */
  lemma {:induction false} AssignBeyond(queue: seq<Entry>, placed: seq<Entry>, minOffset: nat, limit: nat, wide: nat)
    requires placed != [] && Bounds(minOffset, wide) && 0 < limit < placed[|placed| - 1].End()
    requires Spaced(placed, minOffset, wide, true) && Waiting(queue, minOffset, wide)
    requires placed[|placed| - 1].End() + Demand(queue) <= wide
    ensures Assign(queue, placed, minOffset, limit - 1) == Assign(queue, placed, minOffset, wide - 1)
    ensures Assign(queue, placed, minOffset, wide - 1).Placed?
    decreases |queue|
  {
    if queue == [] {
    } else {
      var next := NextPlace(placed, queue[0].size, minOffset, wide - 1);
      PlaceBeyond(placed, queue[0].size, minOffset, limit, wide);
      PlaceOne(placed, queue[0], next.end, minOffset, wide);
      LastEnd(placed, queue[0], next.end, minOffset, wide);
      if |queue| == 1 {
        assert queue[1..] == [];
      } else {
        AssignBeyond(queue[1..], Slot(placed, queue[0].(offset := next.end)), minOffset, limit, wide);
      }
    }
  }

  // Whole tables

  /** The fixed entries are sound for the space up to limit, but rounding the end of one
      of them up takes it to edge. */
  ghost predicate FixedUpTo(parts: seq<Part>, minOffset: nat, limit: nat, edge: nat) {
    && FixedOk(parts, minOffset, edge)
    && (forall i | 0 <= i < |parts| && parts[i].offset != 0 :: parts[i].offset + parts[i].size <= limit)
    && Reaches(parts, edge)
  }

  /** A fixed entry ends at the edge, when its end is rounded up. */
  ghost predicate Reaches(parts: seq<Part>, edge: nat) {
    exists i | 0 <= i < |parts| :: parts[i].offset != 0 && EntryAt(parts, i).End() == edge
  }

  /** The fixed entry that ends at the edge is the last one. */
  lemma LastAtEdge(parts: seq<Part>, list: seq<Entry>, minOffset: nat, limit: nat, edge: nat)
    requires Bounds(minOffset, edge) && FixedUpTo(parts, minOffset, limit, edge)
    requires list == Sort(NonZeros(Entries(parts)))
    ensures Spaced(list, minOffset, edge, true) && list != [] && list[|list| - 1].End() == edge
  {
    var k := AtEdge(parts, list, edge);
    FixedSpaced(parts, minOffset, edge);
    LastReaches(list, k, minOffset, edge);
  }

  lemma AtEdge(parts: seq<Part>, list: seq<Entry>, edge: nat) returns (k: nat)
    requires Reaches(parts, edge) && list == Sort(NonZeros(Entries(parts)))
    ensures k < |list| && list[k].End() == edge
  {
    var i :| 0 <= i < |parts| && parts[i].offset != 0 && EntryAt(parts, i).End() == edge;
    k := FixedAt(parts, list, i);
  }

  lemma LastReaches(list: seq<Entry>, k: nat, minOffset: nat, edge: nat)
    requires Bounds(minOffset, edge) && Spaced(list, minOffset, edge, true) && k < |list| && list[k].End() == edge
    ensures list[|list| - 1].End() == edge
  {
    var n := |list| - 1;
    if k < n {
      SpacedOrder(list, minOffset, edge, true, k, n);
    }
  }

  lemma FixedAt(parts: seq<Part>, list: seq<Entry>, i: nat) returns (k: nat)
    requires i < |parts| && parts[i].offset != 0 && list == Sort(NonZeros(Entries(parts)))
    ensures k < |list| && list[k] == EntryAt(parts, i)
  {
    var zeros := Zeros(Entries(parts));
    Partition(parts);
    assert Kept(zeros + list, Entries(parts)[i]);
    var j :| 0 <= j < |zeros + list| && (zeros + list)[j].id == i && (zeros + list)[j].size == parts[i].size &&
      (zeros + list)[j].offset == parts[i].offset;
    assert j >= |zeros|;
    k := j - |zeros|;
  }

  lemma WaitingWider(queue: seq<Entry>, minOffset: nat, limit: nat, wide: nat)
    requires Waiting(queue, minOffset, limit) && limit <= wide
    ensures Waiting(queue, minOffset, wide)
  {
  }

  /** Settling such a table succeeds as if the space had no end. */
  lemma SettlingBeyond(parts: seq<Part>, minOffset: nat, limit: nat, edge: nat, wide: nat)
    requires Bounds(minOffset, edge) && Bounds(minOffset, wide) && 0 < limit < edge
    requires FixedUpTo(parts, minOffset, limit, edge) && FreeOk(parts, minOffset, limit)
    requires edge + Demand(Zeros(Entries(parts))) <= wide
    ensures Settling(parts, minOffset, limit - 1) == Settling(parts, minOffset, wide - 1)
    ensures Settling(parts, minOffset, wide - 1).Placed?
  {
    var queue, placed := Zeros(Entries(parts)), Sort(NonZeros(Entries(parts)));
    LastAtEdge(parts, placed, minOffset, limit, edge);
    FreeWaiting(parts, minOffset, limit);
    WaitingWider(queue, minOffset, limit, wide);
    SpacedWider(placed, minOffset, edge, wide, true);
    AssignBeyond(queue, placed, minOffset, limit, wide);
  }

  /** What is sound up to the edge, where the last fixed entry ends, is sound up to the end of that entry. */
  lemma SoundWithin(parts: seq<Part>, after: seq<Part>, minOffset: nat, limit: nat, edge: nat)
    requires Bounds(minOffset, edge) && limit < edge && FixedUpTo(parts, minOffset, limit, edge)
    requires Sound(after, minOffset, edge) && FixedStay(parts, after)
    ensures Sound(after, minOffset, limit)
  {
    var last :| 0 <= last < |parts| && parts[last].offset != 0 && EntryAt(parts, last).End() == edge;
    assert EntryAt(after, last) == EntryAt(parts, last);
    forall i | 0 <= i < |after| ensures InPlace(EntryAt(after, i), minOffset, limit) {
      BeforeOrAfter(after, i, last, minOffset, edge);
      if i != last {
        BeforeTheLast(EntryAt(after, i), EntryAt(after, last), minOffset, limit, edge);
      }
    }
  }

  lemma BeforeOrAfter(parts: seq<Part>, i: nat, j: nat, minOffset: nat, limit: nat)
    requires Sound(parts, minOffset, limit) && i < |parts| && j < |parts|
    ensures InPlace(EntryAt(parts, i), minOffset, limit) && InPlace(EntryAt(parts, j), minOffset, limit)
    ensures i != j ==>
              parts[i].offset + parts[i].size <= parts[j].offset || parts[j].offset + parts[j].size <= parts[i].offset
  {
  }

  lemma BeforeTheLast(e: Entry, last: Entry, minOffset: nat, limit: nat, edge: nat)
    requires Bounds(minOffset, edge) && InPlace(e, minOffset, edge) && InPlace(last, minOffset, edge)
    requires last.End() == edge && last.offset + last.size <= limit
    requires e.offset + e.size <= last.offset || last.offset + last.size <= e.offset
    ensures e.offset + e.size <= limit
  {
    if last.offset + last.size <= e.offset {
      RoundingStops(last, e.offset);
    }
  }

  /** A sound table ends by the limit, entry by entry. */
  lemma SoundEnds(parts: seq<Part>, minOffset: nat, limit: nat, maxOffset: nat)
    requires Settling(parts, minOffset, maxOffset).Placed?
    requires Sound(Settle(parts, minOffset, maxOffset).parts, minOffset, limit)
    ensures AllEndBy(Settling(parts, minOffset, maxOffset).list, limit)
  {
    var list, after := Settling(parts, minOffset, maxOffset).list, Settle(parts, minOffset, maxOffset).parts;
    SettleCovers(parts, minOffset, maxOffset);
    forall k | 0 <= k < |list| ensures list[k].offset + list[k].size <= limit {
      assert InPlace(EntryAt(after, list[k].id), minOffset, limit);
    }
  }

  /** If the gaps between the fixed entries take all free ones, settling stays within the limit. */
  lemma StaysWithin(parts: seq<Part>, minOffset: nat, limit: nat, edge: nat, wide: nat)
    requires Bounds(minOffset, edge) && Bounds(minOffset, wide) && 0 < limit < edge <= wide
    requires FixedUpTo(parts, minOffset, limit, edge) && FreeOk(parts, minOffset, limit)
    requires Settling(parts, minOffset, edge - 1).Placed?
    ensures Settling(parts, minOffset, wide - 1) == Settling(parts, minOffset, edge - 1)
    ensures Sound(Settle(parts, minOffset, edge - 1).parts, minOffset, limit)
  {
    var queue, placed := Zeros(Entries(parts)), Sort(NonZeros(Entries(parts)));
    LastAtEdge(parts, placed, minOffset, limit, edge);
    FreeWaiting(parts, minOffset, limit);
    WaitingWider(queue, minOffset, limit, edge);
    AssignWider(queue, placed, minOffset, edge, wide);
    FreeWider(parts, minOffset, limit, edge);
    SettledSound(parts, minOffset, edge - 1);
    SoundWithin(parts, Settle(parts, minOffset, edge - 1).parts, minOffset, limit, edge);
  }

  lemma FreeWider(parts: seq<Part>, minOffset: nat, limit: nat, wide: nat)
    requires FreeOk(parts, minOffset, limit) && limit <= wide
    ensures FreeOk(parts, minOffset, wide)
  {
  }

  /** If settling stays within the limit, the gaps between the fixed entries take all free ones. */
  lemma TakenByGaps(parts: seq<Part>, minOffset: nat, limit: nat, edge: nat, wide: nat)
    requires Bounds(minOffset, edge) && Bounds(minOffset, wide) && 0 < limit < edge <= wide
    requires FixedUpTo(parts, minOffset, limit, edge) && FreeOk(parts, minOffset, limit)
    requires Settling(parts, minOffset, wide - 1).Placed? && AllEndBy(Settling(parts, minOffset, wide - 1).list, limit)
    ensures Settling(parts, minOffset, edge - 1).Placed?
  {
    var queue, placed := Zeros(Entries(parts)), Sort(NonZeros(Entries(parts)));
    LastAtEdge(parts, placed, minOffset, limit, edge);
    FreeWaiting(parts, minOffset, limit);
    WaitingWider(queue, minOffset, limit, edge);
    ZerosUnplaced(Entries(parts));
    AssignNarrower(queue, placed, minOffset, edge, wide);
  }

  lemma SoundIfGaps(parts: seq<Part>, minOffset: nat, limit: nat, edge: nat, wide: nat)
    requires Bounds(minOffset, edge) && Bounds(minOffset, wide) && 0 < limit < edge <= wide
    requires FixedUpTo(parts, minOffset, limit, edge) && FreeOk(parts, minOffset, limit)
    requires Settling(parts, minOffset, wide - 1).Placed?
    ensures Sound(Settle(parts, minOffset, wide - 1).parts, minOffset, limit) <==>
            Settling(parts, minOffset, edge - 1).Placed?
  {
    if Settling(parts, minOffset, edge - 1).Placed? {
      StaysWithin(parts, minOffset, limit, edge, wide);
    } else if Sound(Settle(parts, minOffset, wide - 1).parts, minOffset, limit) {
      SoundEnds(parts, minOffset, limit, wide - 1);
      TakenByGaps(parts, minOffset, limit, edge, wide);
    }
  }

  /** A table whose fixed entries are sound but for the rounded end of the last one, which is past the limit: settling
      always succeeds, and the result is sound exactly when the free entries all find a gap between the fixed ones. */
  lemma LeavesTheSpace(parts: seq<Part>, minOffset: nat, limit: nat, edge: nat)
    requires Bounds(minOffset, edge) && 0 < limit < edge
    requires FixedUpTo(parts, minOffset, limit, edge) && FreeOk(parts, minOffset, limit)
    requires edge + Demand(Zeros(Entries(parts))) + 2 * ALIGN <= WORD
    ensures var v := Settle(parts, minOffset, limit - 1);
            && v.Done? && v.err == Success
            && (Sound(v.parts, minOffset, limit) <==> Settling(parts, minOffset, edge - 1).Placed?)
  {
    var wide := edge + Demand(Zeros(Entries(parts)));
    SettlingBeyond(parts, minOffset, limit, edge, wide);
    SoundIfGaps(parts, minOffset, limit, edge, wide);
  }

  lemma EdgeBounds(minOffset: nat, limit: nat, edge: nat)
    requires Bounds(minOffset, limit) && limit < edge && edge + 2 * ALIGN <= WORD
    ensures Bounds(minOffset, edge)
  {
  }

  /** The same through the whole of validation, on the sizes as they come out of the first pass. */
  lemma ValidatedLeavesTheSpace(parts: seq<Part>, s: Space, edge: nat)
    requires Roomy(s) && s.total > 0 && (s.first * s.blockSize) % ALIGN == 0
    ensures var r, lo, hi, v := Resolve(parts, |parts|, s), s.MinOffset(), s.MaxOffset(), Validated(parts, s);
            && r.err == Success && r.total <= s.total && hi + 1 < edge
            && FixedUpTo(r.parts, lo, hi + 1, edge) && FreeOk(r.parts, lo, hi + 1)
            && edge + Demand(Zeros(Entries(r.parts))) + 2 * ALIGN <= WORD ==>
              && v.Done? && v.err == Success
              && (Sound(v.parts, lo, hi + 1) <==> Settling(r.parts, lo, edge - 1).Placed?)
  {
    var r, lo, hi := Resolve(parts, |parts|, s), s.MinOffset(), s.MaxOffset();
    ValidatedSteps(parts, s, r);
    BoundsOf(s, lo, hi);
    if && r.err == Success && r.total <= s.total && hi + 1 < edge
       && FixedUpTo(r.parts, lo, hi + 1, edge) && FreeOk(r.parts, lo, hi + 1)
       && edge + Demand(Zeros(Entries(r.parts))) + 2 * ALIGN <= WORD {
      EdgeBounds(lo, hi + 1, edge);
      LeavesTheSpace(r.parts, lo, hi + 1, edge);
    }
  }

  // The smallest case

  // 512-byte blocks, of which the first 2048 are taken, and one block more than 2 GiB and 1 MiB in all.
  const ODD := Space(2048, 4194305, 512)
  // A partition that ends with the last block, and one of 1 MiB anywhere.
  const LATE: nat := 0x8000_0000
  const CROWDED := [Part(LATE, ALIGN + 512, NO_INFO), Part(0, ALIGN, NO_INFO)]

  lemma OddEnds()
    ensures ODD.MinOffset() == ALIGN && ODD.MaxOffset() + 1 == LATE + ALIGN + 512
  {
    U64IsRemainder(2048 * 512);
    U64IsRemainder(4196353 * 512 - 1);
  }

  lemma CrowdedSizes()
    ensures Resolve(CROWDED, 2, ODD) == Pass(Success, CROWDED, 3 * ALIGN)
  {
    OddEnds();
    assert Resolve(CROWDED, 0, ODD) == Pass(Success, CROWDED, 0);
    AlignUpFacts(ALIGN + 512, ALIGN);
    MultiplesApart(2 * ALIGN, AlignUp(ALIGN + 512, ALIGN));
    assert Resolve(CROWDED, 1, ODD) == Pass(Success, CROWDED, 2 * ALIGN);
    AlignUpFacts(ALIGN, ALIGN);
    MultiplesApart(ALIGN, AlignUp(ALIGN, ALIGN));
  }

  lemma CrowdedPlacing()
    ensures Settling(CROWDED, ALIGN, LATE + ALIGN + 511) ==
            Placed([Entry(0, LATE, ALIGN + 512), Entry(1, LATE + 2 * ALIGN, ALIGN)])
  {
    var a, b, x := Entry(0, LATE, ALIGN + 512), Entry(1, 0, ALIGN), Entry(1, LATE + 2 * ALIGN, ALIGN);
    assert Entries(CROWDED) == [a] + [b];
    ZerosPush([a], b);
    ZerosPush([], a);
    assert [] + [a] == [a] && [] + [b] == [b];
    assert Zeros([]) == [] && NonZeros([]) == [] && Sort([]) == [];
    SortPush([], a);
    EndFacts(a);
    MultiplesApart(LATE + 2 * ALIGN, a.End());
    assert FindGap([a], 0, ALIGN, LATE + ALIGN + 511) == At(LATE + 2 * ALIGN);
    SlotAtEnd([a], x);
    assert [b][1..] == [];
    assert Assign([], [a] + [x], ALIGN, LATE + ALIGN + 511) == Placed([a] + [x]);
  }

  /** Validation succeeds and puts a partition past the end of the space. */
  lemma PlacedPastEnd()
    ensures Validated(CROWDED, ODD) == Done(Success, CROWDED[1 := Part(LATE + 2 * ALIGN, ALIGN, NO_INFO)])
    ensures LATE + 2 * ALIGN > ODD.MaxOffset()
  {
    OddEnds();
    CrowdedSizes();
    CrowdedPlacing();
    ValidatedSteps(CROWDED, ODD, Resolve(CROWDED, 2, ODD));
    var list := [Entry(0, LATE, ALIGN + 512), Entry(1, LATE + 2 * ALIGN, ALIGN)];
    var after := WithOffsets(CROWDED, list);
    WithOffsetsAt(CROWDED, list, 0);
    WithOffsetsAt(CROWDED, list, 1);
    assert after == CROWDED[1 := Part(LATE + 2 * ALIGN, ALIGN, NO_INFO)];
  }
}
