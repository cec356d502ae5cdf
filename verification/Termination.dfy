/** When checking a partition table comes to an end. */
module Termination {
  import opened Bits
  import opened PartInfos
  import opened Placement
  import opened PlacementSafety
  import opened Validation

  // Placing

  /** The room the queue can take up at most, rounding included. */
  function Demand(queue: seq<Entry>): nat {
    if queue == [] then 0 else queue[0].size + ALIGN + Demand(queue[1..])
  }

  /** Every entry lies above address 0 and ends by w. */
  ghost predicate EndsBy(placed: seq<Entry>, w: nat) {
    forall k | 0 <= k < |placed| :: placed[k].offset > 0 && placed[k].offset + placed[k].size <= w
  }

  /** What the search finds is the rounded end of a placed entry. */
  lemma {:induction false} GapIsEnd(placed: seq<Entry>, k: nat, size: nat, maxOffset: nat) returns (j: nat)
    requires k < |placed| && FindGap(placed, k, size, maxOffset).At?
    ensures j < |placed| && FindGap(placed, k, size, maxOffset).end == placed[j].End()
    decreases |placed| - k
  {
    j := k;
    if RoomAfter(placed, k, maxOffset) < size {
      j := GapIsEnd(placed, k + 1, size, maxOffset);
    }
  }

  lemma PlaceAbove(placed: seq<Entry>, x: Entry, end: nat, minOffset: nat, maxOffset: nat, w: nat)
    requires 0 < minOffset <= w && EndsBy(placed, w) && w + x.size + 2 * ALIGN <= WORD
    requires NextPlace(placed, x.size, minOffset, maxOffset) == At(end)
    ensures end > 0 && EndsBy(Slot(placed, x.(offset := end)), w + x.size + ALIGN)
  {
    if placed != [] {
      var j := GapIsEnd(placed, 0, x.size, maxOffset);
      EndFacts(placed[j]);
    }
    var i := SlotSomewhere(placed, x.(offset := end));
  }

  /** Placing comes to an end as long as the address space has room for everything behind everything, however the
      entries lie and whatever their sizes are. */
  lemma {:induction false} AssignEnds(queue: seq<Entry>, placed: seq<Entry>, minOffset: nat, maxOffset: nat, w: nat)
    requires 0 < minOffset <= w && EndsBy(placed, w) && w + Demand(queue) + ALIGN <= WORD
    ensures Assign(queue, placed, minOffset, maxOffset) != Forever
    decreases |queue|
  {
    if queue == [] {
    } else {
      var next := NextPlace(placed, queue[0].size, minOffset, maxOffset);
      if next.At? {
        PlaceAbove(placed, queue[0], next.end, minOffset, maxOffset, w);
        AssignEnds(queue[1..], Slot(placed, queue[0].(offset := next.end)), minOffset, maxOffset,
                   w + queue[0].size + ALIGN);
      }
    }
  }

  /** e is an entry of the list, with an offset of its own if that has none. */
  ghost predicate Stands(list: seq<Entry>, e: Entry) {
    exists k | 0 <= k < |list| ::
      list[k].id == e.id && list[k].size == e.size && (list[k].offset == 0 || list[k].offset == e.offset)
  }

  lemma StandsAt(list: seq<Entry>, k: nat, e: Entry)
    requires k < |list| && list[k].id == e.id && list[k].size == e.size
    requires list[k].offset == 0 || list[k].offset == e.offset
    ensures Stands(list, e)
  {
  }

  lemma StandsBefore(queue: seq<Entry>, placed: seq<Entry>, end: nat, e: Entry)
    requires queue != [] && queue[0].offset == 0 && end > 0
    requires Stands(queue[1..] + Slot(placed, queue[0].(offset := end)), e)
    ensures Stands(queue + placed, e)
  {
    var x := queue[0].(offset := end);
    var j := SlotSomewhere(placed, x);
    var n := |queue| - 1;
    var after := queue[1..] + (placed[..j] + [x] + placed[j..]);
    var k :| 0 <= k < |after| && after[k].id == e.id && after[k].size == e.size &&
      (after[k].offset == 0 || after[k].offset == e.offset);
    StandsAt(queue + placed, if k < n + j then k + 1 else if k == n + j then 0 else k, e);
  }

  // Where the rounds lead

  /** The placed entries after k rounds, as far as the rounds find a place. */
  function After(queue: seq<Entry>, placed: seq<Entry>, minOffset: nat, maxOffset: nat, k: nat): seq<Entry>
    requires k <= |queue|
    decreases k
  {
    if k == 0 then placed
    else
      match NextPlace(placed, queue[0].size, minOffset, maxOffset)
      case NoGap => placed
      case At(end) => After(queue[1..], Slot(placed, queue[0].(offset := end)), minOffset, maxOffset, k - 1)
  }

  /** The first k rounds each find a place, and not at address 0. */
  predicate Goes(queue: seq<Entry>, placed: seq<Entry>, minOffset: nat, maxOffset: nat, k: nat)
    requires k <= |queue|
    decreases k
  {
    k == 0 ||
    match NextPlace(placed, queue[0].size, minOffset, maxOffset)
    case NoGap => false
    case At(end) =>
      end != 0 && Goes(queue[1..], Slot(placed, queue[0].(offset := end)), minOffset, maxOffset, k - 1)
  }

  /** Size bytes fit behind the j-th placed entry, as the program reckons, and behind none before it. */
  predicate FirstRoom(placed: seq<Entry>, j: nat, size: nat, maxOffset: nat)
    requires j < |placed|
  {
    && RoomAfter(placed, j, maxOffset) >= size
    && forall i | 0 <= i < j :: RoomAfter(placed, i, maxOffset) < size
  }

  /** The next entry goes to address 0: its gap is behind an entry, lying where it does, whose rounded end is 0. */
  ghost predicate GoesToZero(placed: seq<Entry>, size: nat, minOffset: nat, maxOffset: nat) {
    if placed == [] then minOffset == 0
    else exists j | 0 <= j < |placed| :: FirstRoom(placed, j, size, maxOffset) && placed[j].End() == 0
  }

  lemma {:induction false} FindGapFirst(placed: seq<Entry>, k: nat, j: nat, size: nat, maxOffset: nat)
    requires k <= j < |placed| && RoomAfter(placed, j, maxOffset) >= size
    requires forall i | k <= i < j :: RoomAfter(placed, i, maxOffset) < size
    ensures FindGap(placed, k, size, maxOffset) == At(placed[j].End())
    decreases j - k
  {
    if k < j {
      FindGapFirst(placed, k + 1, j, size, maxOffset);
    }
  }

  lemma {:induction false} GapIsFirst(placed: seq<Entry>, k: nat, size: nat, maxOffset: nat) returns (j: nat)
    requires k < |placed| && FindGap(placed, k, size, maxOffset).At?
    requires forall i | 0 <= i < k :: RoomAfter(placed, i, maxOffset) < size
    ensures j < |placed| && FirstRoom(placed, j, size, maxOffset)
    ensures FindGap(placed, k, size, maxOffset) == At(placed[j].End())
    decreases |placed| - k
  {
    j := k;
    if RoomAfter(placed, k, maxOffset) < size {
      j := GapIsFirst(placed, k + 1, size, maxOffset);
    }
  }

  lemma NextPlaceZero(placed: seq<Entry>, size: nat, minOffset: nat, maxOffset: nat)
    ensures NextPlace(placed, size, minOffset, maxOffset) == At(0) <==> GoesToZero(placed, size, minOffset, maxOffset)
  {
    if placed != [] {
      if FindGap(placed, 0, size, maxOffset) == At(0) {
        var j := GapIsFirst(placed, 0, size, maxOffset);
      }
      if GoesToZero(placed, size, minOffset, maxOffset) {
        var j :| 0 <= j < |placed| && FirstRoom(placed, j, size, maxOffset) && placed[j].End() == 0;
        FindGapFirst(placed, 0, j, size, maxOffset);
      }
    }
  }

  /** Round k is reached, and its entry goes to address 0. */
  ghost predicate ZeroAt(queue: seq<Entry>, placed: seq<Entry>, minOffset: nat, maxOffset: nat, k: nat) {
    && k < |queue| && Goes(queue, placed, minOffset, maxOffset, k)
    && GoesToZero(After(queue, placed, minOffset, maxOffset, k), queue[k].size, minOffset, maxOffset)
  }

  lemma ZeroAtNext(queue: seq<Entry>, placed: seq<Entry>, minOffset: nat, maxOffset: nat, end: nat, k: nat)
    requires queue != [] && NextPlace(placed, queue[0].size, minOffset, maxOffset) == At(end) && end != 0
    ensures ZeroAt(queue, placed, minOffset, maxOffset, k + 1) <==>
            ZeroAt(queue[1..], Slot(placed, queue[0].(offset := end)), minOffset, maxOffset, k)
  {
    if k + 1 < |queue| {
      assert queue[1..][k] == queue[k + 1];
    }
  }

  lemma ZeroAtStart(queue: seq<Entry>, placed: seq<Entry>, minOffset: nat, maxOffset: nat)
    requires queue != []
    ensures ZeroAt(queue, placed, minOffset, maxOffset, 0) <==>
            NextPlace(placed, queue[0].size, minOffset, maxOffset) == At(0)
  {
    NextPlaceZero(placed, queue[0].size, minOffset, maxOffset);
  }

  /** Placing goes on for ever exactly if some round is reached whose gap lies behind an
      entry with a rounded end of 0. */
  lemma {:induction false} AssignForever(queue: seq<Entry>, placed: seq<Entry>, minOffset: nat, maxOffset: nat)
    ensures Assign(queue, placed, minOffset, maxOffset) == Forever <==>
            exists k: nat :: ZeroAt(queue, placed, minOffset, maxOffset, k)
    decreases |queue|
  {
    if queue != [] {
      var next := NextPlace(placed, queue[0].size, minOffset, maxOffset);
      ZeroAtStart(queue, placed, minOffset, maxOffset);
      if next.At? && next.end != 0 {
        AssignForeverNext(queue, placed, minOffset, maxOffset, next.end);
      } else if next.NoGap? {
        NotBeyond(queue, placed, minOffset, maxOffset);
      }
    }
  }

  lemma {:induction false} AssignForeverNext(queue: seq<Entry>, placed: seq<Entry>, minOffset: nat, maxOffset: nat,
                                             end: nat)
    requires queue != [] && NextPlace(placed, queue[0].size, minOffset, maxOffset) == At(end) && end != 0
    ensures Assign(queue, placed, minOffset, maxOffset) == Forever <==>
            exists k: nat :: ZeroAt(queue, placed, minOffset, maxOffset, k)
    decreases |queue|, 0
  {
    var placed' := Slot(placed, queue[0].(offset := end));
    AssignForever(queue[1..], placed', minOffset, maxOffset);
    ZeroAtStart(queue, placed, minOffset, maxOffset);
    if exists k: nat :: ZeroAt(queue[1..], placed', minOffset, maxOffset, k) {
      var k: nat :| ZeroAt(queue[1..], placed', minOffset, maxOffset, k);
      ZeroAtNext(queue, placed, minOffset, maxOffset, end, k);
    }
    if exists k: nat :: ZeroAt(queue, placed, minOffset, maxOffset, k) {
      var k: nat :| ZeroAt(queue, placed, minOffset, maxOffset, k);
      ZeroAtNext(queue, placed, minOffset, maxOffset, end, k - 1);
    }
  }

  lemma NotBeyond(queue: seq<Entry>, placed: seq<Entry>, minOffset: nat, maxOffset: nat)
    requires queue != [] && NextPlace(placed, queue[0].size, minOffset, maxOffset) == NoGap
    ensures forall k: nat :: !ZeroAt(queue, placed, minOffset, maxOffset, k)
  {
    ZeroAtStart(queue, placed, minOffset, maxOffset);
  }

  /** The entries that are placed then are entries of the list, at their own offsets if they had one. */
  lemma {:induction false} AfterStands(queue: seq<Entry>, placed: seq<Entry>, minOffset: nat, maxOffset: nat,
                                       k: nat, j: nat)
    requires Unplaced(queue) && forall i | 0 <= i < |placed| :: placed[i].offset > 0
    requires k <= |queue| && Goes(queue, placed, minOffset, maxOffset, k)
    requires j < |After(queue, placed, minOffset, maxOffset, k)|
    ensures var e := After(queue, placed, minOffset, maxOffset, k)[j];
            e.offset > 0 && Stands(queue + placed, e)
    decreases k
  {
    if k == 0 {
      StandsAt(queue + placed, |queue| + j, placed[j]);
    } else {
      var end := NextPlace(placed, queue[0].size, minOffset, maxOffset).end;
      var x := queue[0].(offset := end);
      var i := SlotSomewhere(placed, x);
      AfterStands(queue[1..], Slot(placed, x), minOffset, maxOffset, k - 1, j);
      StandsBefore(queue, placed, end, After(queue, placed, minOffset, maxOffset, k)[j]);
    }
  }

  /** A rounded end is 0 exactly if the end lies within the last unit of the address space,
      or wraps to there, or to 0. */
  lemma EndIsZero(e: Entry)
    requires 0 < e.offset < WORD && e.size < WORD
    ensures e.End() == 0 <==> WORD - ALIGN < e.offset + e.size <= WORD || e.offset + e.size > 2 * WORD - ALIGN
  {
    var end := U64(e.offset + e.size);
    U64Once(e.offset + e.size);
    U64Once(end + ALIGN - 1);
    BelowOneUnit(U64(end + ALIGN - 1));
  }

  lemma U64Once(x: nat)
    requires x < 2 * WORD
    ensures U64(x) == if x < WORD then x else x - WORD
  {
    if x >= WORD {
      assert U64(x) == U64(x - WORD);
    }
  }

  lemma BelowOneUnit(w: nat)
    ensures AlignDown(w, ALIGN) == 0 <==> w < ALIGN
  {
  }

  // Sizes

  /** Entry i is reached in good order: a percentage before more blocks are gone than there are, a size in bytes such
      that neither it nor the running total leaves 64 bits when it is rounded up and counted in. */
  ghost predicate SteadyAt(parts: seq<Part>, i: nat, s: Space)
    requires i < |parts| && 0 < s.blockSize <= ALIGN
  {
    var r := Resolve(parts, i, s);
    r.err == Success ==>
      if parts[i].size <= 100 then r.total <= s.total
      else parts[i].size + ALIGN <= WORD && r.total + AlignUp(parts[i].size, ALIGN) < WORD
  }

  ghost predicate Steady(parts: seq<Part>, s: Space)
    requires 0 < s.blockSize <= ALIGN
  {
    forall i | 0 <= i < |parts| :: SteadyAt(parts, i, s)
  }

  /** What the pass over the first n entries has made of them: their bytes do not outnumber the bytes of the blocks
      counted, and no offset is past the end. */
  ghost predicate Counted(parts: seq<Part>, r: Pass, n: nat, s: Space)
    requires n <= |parts| == |r.parts|
  {
    && SizeSum(r.parts, n) <= r.total * s.blockSize
    && (forall i | 0 <= i < |parts| :: r.parts[i].offset == parts[i].offset)
    && (forall i | 0 <= i < n :: parts[i].offset <= s.MaxOffset())
    && (forall i | n <= i < |parts| :: r.parts[i] == parts[i])
  }

  lemma PercentUpTo(percent: nat, s: Space)
    requires Roomy(s) && percent <= 100
    ensures PercentBlocks(percent, s) <= s.total + ALIGN
  {
    MulMonotone(s.total, percent, 100);
    AlignUpFacts(s.total * percent / 100, s.Align());
  }

  /** Counting an entry in: some blocks, and no more bytes than they hold. */
  lemma CountedWith(parts: seq<Part>, r: Pass, n: nat, s: Space, blocks: nat, bytes: nat)
    requires n < |parts| == |r.parts| && Counted(parts, r, n, s) && parts[n].offset <= s.MaxOffset()
    requires bytes <= blocks * s.blockSize
    ensures Counted(parts, Pass(Success, r.parts[n := r.parts[n].(size := bytes)], r.total + blocks), n + 1, s)
  {
    SizeSumAgrees(r.parts[n := r.parts[n].(size := bytes)], r.parts, n);
    SumProduct(r.total, blocks, s.blockSize);
  }

  lemma PercentageBounds(used: nat, percent: nat, s: Space, wanted: nat, blocks: nat)
    requires Roomy(s) && percent <= 100 && used <= s.total
    requires wanted == PercentBlocks(percent, s) && blocks == Share(used, wanted, s.total)
    ensures used + blocks <= s.total < WORD && 0 <= blocks * s.blockSize < WORD
  {
    PercentUpTo(percent, s);
    ShareTaken(used, wanted, s.total);
    BytesFit(blocks, s);
  }

  lemma ShareTaken(used: nat, wanted: nat, available: nat)
    requires used <= available && used + wanted < WORD
    ensures used + Share(used, wanted, available) <= available
  {
  }

  /** A percentage that is counted in, with its blocks and bytes named. */
  lemma PercentageTaken(r: Pass, n: nat, s: Space, wanted: nat, blocks: nat, bytes: nat)
    requires 0 < s.blockSize <= ALIGN && n < |r.parts| && r.total + blocks < WORD && bytes < WORD
    requires r.parts[n].size <= 100 && wanted == PercentBlocks(r.parts[n].size, s)
    requires blocks == Share(r.total, wanted, s.total) && bytes == blocks * s.blockSize
    requires ResolveStep(r, n, s).err == Success && r.err == Success
    ensures ResolveStep(r, n, s) == Pass(Success, r.parts[n := r.parts[n].(size := bytes)], r.total + blocks)
    ensures !OutsideRange(r.parts[n], s)
  {
  }

  lemma CountedPercentage(parts: seq<Part>, r: Pass, n: nat, s: Space)
    requires Roomy(s) && n < |parts| == |r.parts| && Counted(parts, r, n, s) && r.total <= s.total
    requires r.err == Success && parts[n].size <= 100 && ResolveStep(r, n, s).err == Success
    ensures Counted(parts, ResolveStep(r, n, s), n + 1, s) && ResolveStep(r, n, s).total <= s.total
  {
    var wanted := PercentBlocks(parts[n].size, s);
    var blocks := Share(r.total, wanted, s.total);
    CountedShare(parts, r, n, s, wanted, blocks, blocks * s.blockSize);
  }

  lemma CountedShare(parts: seq<Part>, r: Pass, n: nat, s: Space, wanted: nat, blocks: nat, bytes: int)
    requires Roomy(s) && n < |parts| == |r.parts| && Counted(parts, r, n, s) && r.total <= s.total
    requires r.err == Success && parts[n].size <= 100 && ResolveStep(r, n, s).err == Success
    requires wanted == PercentBlocks(parts[n].size, s) && blocks == Share(r.total, wanted, s.total)
    requires bytes == blocks * s.blockSize
    ensures Counted(parts, ResolveStep(r, n, s), n + 1, s) && ResolveStep(r, n, s).total <= s.total
  {
    PercentageBounds(r.total, parts[n].size, s, wanted, blocks);
    PercentageTaken(r, n, s, wanted, blocks, bytes);
    CountedWith(parts, r, n, s, blocks, bytes);
  }

  lemma CountedExplicit(parts: seq<Part>, r: Pass, n: nat, s: Space)
    requires 0 < s.blockSize <= ALIGN && n < |parts| == |r.parts| && Counted(parts, r, n, s)
    requires r.err == Success && parts[n].size > 100 && ResolveStep(r, n, s).err == Success
    requires parts[n].size + ALIGN <= WORD && r.total + AlignUp(parts[n].size, ALIGN) < WORD
    ensures Counted(parts, ResolveStep(r, n, s), n + 1, s)
  {
    var blocks := AlignUp(parts[n].size, ALIGN);
    AlignUpFacts(parts[n].size, ALIGN);
    MulMonotone(blocks, 1, s.blockSize);
    CountedWith(parts, r, n, s, blocks, parts[n].size);
    assert r.parts[n := r.parts[n].(size := parts[n].size)] == r.parts;
  }

  lemma {:induction false} PassCounted(parts: seq<Part>, n: nat, s: Space)
    requires Roomy(s) && Steady(parts, s) && n <= |parts| && Resolve(parts, n, s).err == Success
    ensures Counted(parts, Resolve(parts, n, s), n, s)
  {
    if n == 0 {
    } else {
      var r := Resolve(parts, n - 1, s);
      PassCounted(parts, n - 1, s);
      assert SteadyAt(parts, n - 1, s);
      if parts[n - 1].size <= 100 {
        CountedPercentage(parts, r, n - 1, s);
      } else {
        CountedExplicit(parts, r, n - 1, s);
      }
    }
  }

  // The whole check

  lemma {:induction false} DemandPush(queue: seq<Entry>, x: Entry)
    ensures Demand(queue + [x]) == Demand(queue) + x.size + ALIGN
  {
    if queue == [] {
      assert queue + [x] == [x];
      assert [x][1..] == [];
    } else {
      DemandPush(queue[1..], x);
      assert (queue + [x])[1..] == queue[1..] + [x];
    }
  }

  lemma {:induction false} DemandOfFree(parts: seq<Part>, n: nat)
    requires n <= |parts|
    ensures Demand(Zeros(Entries(parts)[..n])) <= SizeSum(parts, n) + n * ALIGN
  {
    if n == 0 {
    } else {
      var list := Entries(parts)[..n];
      DemandOfFree(parts, n - 1);
      assert list == Entries(parts)[..n - 1] + [list[n - 1]];
      ZerosPush(Entries(parts)[..n - 1], list[n - 1]);
      DemandPush(Zeros(Entries(parts)[..n - 1]), list[n - 1]);
    }
  }

  lemma {:induction false} SizeInSum(parts: seq<Part>, i: nat, n: nat)
    requires i < n <= |parts|
    ensures parts[i].size <= SizeSum(parts, n)
    decreases n
  {
    if i < n - 1 {
      SizeInSum(parts, i, n - 1);
    }
  }

  /** Settling ends if all fixed offsets are at most top and the address space has room for all sizes above that. */
  lemma {:induction false} SettleEnds(parts: seq<Part>, minOffset: nat, maxOffset: nat, top: nat)
    requires 0 < minOffset <= top && forall i | 0 <= i < |parts| :: parts[i].offset <= top
    requires top + 2 * SizeSum(parts, |parts|) + (|parts| + 1) * ALIGN <= WORD
    ensures Settle(parts, minOffset, maxOffset) != Hangs
  {
    var list, sum := Entries(parts), SizeSum(parts, |parts|);
    var placed := Sort(NonZeros(list));
    forall k | 0 <= k < |placed| ensures placed[k].offset > 0 && placed[k].offset + placed[k].size <= top + sum {
      FixedMembers(parts, k);
      SizeInSum(parts, placed[k].id, |parts|);
    }
    DemandOfFree(parts, |parts|);
    assert list[..|parts|] == list;
    AssignEnds(Zeros(list), placed, minOffset, maxOffset, top + sum);
  }

  /** The address space is so much larger than the space to allocate from that n entries
      behind its end do not wrap. */
  ghost predicate Headroom(s: Space, n: nat) {
    (s.first + s.total) * s.blockSize + 2 * (s.total * s.blockSize) + (n + 1) * ALIGN <= WORD
  }

  lemma SpaceEnds(s: Space)
    requires Roomy(s)
    ensures 0 < s.MinOffset() <= (s.first + s.total) * s.blockSize && s.MaxOffset() < (s.first + s.total) * s.blockSize
  {
    MulMonotone(s.blockSize, 1, s.first);
    MulMonotone(s.blockSize, s.first, s.first + s.total);
  }

  lemma {:induction false} CountedSettles(parts: seq<Part>, r: Pass, s: Space)
    requires Roomy(s) && Headroom(s, |parts|) && |r.parts| == |parts|
    requires Counted(parts, r, |parts|, s) && r.total <= s.total
    ensures Settle(r.parts, s.MinOffset(), s.MaxOffset()) != Hangs
  {
    SpaceEnds(s);
    MulMonotone(s.blockSize, r.total, s.total);
    SettleEnds(r.parts, s.MinOffset(), s.MaxOffset(), (s.first + s.total) * s.blockSize);
  }

  /** Checking a table ends, however its entries lie and whatever their sizes: overlapping, unaligned, of odd size or
      too large for the space. It is enough that no percentage comes after more blocks are gone than there are, and
      that the sizes in bytes do not wrap. */
  lemma ValidationEnds(parts: seq<Part>, s: Space)
    requires Roomy(s) && Headroom(s, |parts|) && Steady(parts, s)
    ensures Validated(parts, s) != Hangs
  {
    var r := Resolve(parts, |parts|, s);
    ValidatedSteps(parts, s, r);
    if r.err == Success && r.total <= s.total {
      PassCounted(parts, |parts|, s);
      CountedSettles(parts, r, s);
    }
  }

  ghost predicate OnlyPercentages(parts: seq<Part>, n: nat)
    requires n <= |parts|
  {
    forall i | 0 <= i < n :: parts[i].size <= 100
  }

  lemma {:induction false} PercentagesCounted(parts: seq<Part>, n: nat, s: Space)
    requires Roomy(s) && n <= |parts| && OnlyPercentages(parts, n) && Resolve(parts, n, s).err == Success
    ensures Counted(parts, Resolve(parts, n, s), n, s) && Resolve(parts, n, s).total <= s.total
  {
    if n == 0 {
    } else {
      PercentagesCounted(parts, n - 1, s);
      CountedPercentage(parts, Resolve(parts, n - 1, s), n - 1, s);
    }
  }

  /** So it always ends for a table that asks for percentages before it asks for bytes, with any
      offsets, if the bytes do not wrap. */
  lemma PercentagesFirst(parts: seq<Part>, n: nat, s: Space)
    requires Roomy(s) && Headroom(s, |parts|) && n <= |parts| && OnlyPercentages(parts, n)
    requires forall i | n <= i < |parts| :: parts[i].size > 100 && SteadyAt(parts, i, s)
    ensures Steady(parts, s) && Validated(parts, s) != Hangs
  {
    forall i | 0 <= i < |parts| ensures SteadyAt(parts, i, s) {
      if i < n && Resolve(parts, i, s).err == Success {
        PercentagesCounted(parts, i, s);
      }
    }
    ValidationEnds(parts, s);
  }

  /** Round k of settling the table is reached, and gives its entry address 0. */
  ghost predicate SettlesAtZero(parts: seq<Part>, minOffset: nat, maxOffset: nat, k: nat) {
    ZeroAt(Zeros(Entries(parts)), Sort(NonZeros(Entries(parts))), minOffset, maxOffset, k)
  }

  lemma SettleHangs(parts: seq<Part>, minOffset: nat, maxOffset: nat)
    ensures Settle(parts, minOffset, maxOffset) == Hangs <==>
            exists k: nat :: SettlesAtZero(parts, minOffset, maxOffset, k)
  {
    var queue, placed := Zeros(Entries(parts)), Sort(NonZeros(Entries(parts)));
    AssignForever(queue, placed, minOffset, maxOffset);
    if Assign(queue, placed, minOffset, maxOffset) == Forever {
      var k: nat :| ZeroAt(queue, placed, minOffset, maxOffset, k);
      assert SettlesAtZero(parts, minOffset, maxOffset, k);
    }
    if exists k: nat :: SettlesAtZero(parts, minOffset, maxOffset, k) {
      var k: nat :| SettlesAtZero(parts, minOffset, maxOffset, k);
      assert ZeroAt(queue, placed, minOffset, maxOffset, k);
    }
  }

  /** The check goes on for ever exactly for tables that its first pass accepts and that settle at address 0. */
  lemma HangsByWrapping(parts: seq<Part>, s: Space)
    requires s.blockSize <= ALIGN
    ensures Validated(parts, s) == Hangs <==>
            && s.first > 0 && s.blockSize > 0
            && var r := Resolve(parts, |parts|, s);
               && r.err == Success && r.total <= s.total
               && exists k: nat :: SettlesAtZero(r.parts, s.MinOffset(), s.MaxOffset(), k)
  {
    if s.first > 0 && s.blockSize > 0 {
      var r := Resolve(parts, |parts|, s);
      ValidatedSteps(parts, s, r);
      SettleHangs(r.parts, s.MinOffset(), s.MaxOffset());
    }
  }

  /** An entry of the table, where it lies when round k of settling has come, whose rounded end is 0. */
  ghost predicate EndWraps(parts: seq<Part>, minOffset: nat, maxOffset: nat, k: nat, e: Entry) {
    var queue, placed := Zeros(Entries(parts)), Sort(NonZeros(Entries(parts)));
    && k < |queue| && e in After(queue, placed, minOffset, maxOffset, k) && e.End() == 0 && e.offset > 0
    && e.id < |parts| && e.size == parts[e.id].size && (parts[e.id].offset == 0 || parts[e.id].offset == e.offset)
  }

  /** And then an entry has been placed, or was given, where its rounded end is 0. */
  lemma WrappedEntry(parts: seq<Part>, minOffset: nat, maxOffset: nat, k: nat) returns (e: Entry)
    requires minOffset > 0 && SettlesAtZero(parts, minOffset, maxOffset, k)
    ensures EndWraps(parts, minOffset, maxOffset, k, e) && e.offset + e.size + ALIGN > WORD
  {
    var queue, placed := Zeros(Entries(parts)), Sort(NonZeros(Entries(parts)));
    var after := After(queue, placed, minOffset, maxOffset, k);
    var j :| 0 <= j < |after| && FirstRoom(after, j, queue[k].size, maxOffset) && after[j].End() == 0;
    e := after[j];
    Partition(parts);
    AfterStands(queue, placed, minOffset, maxOffset, k, j);
    StandsInTable(parts, Sort(Entries(parts)), e);
    if e.offset + e.size + ALIGN <= WORD {
      EndFacts(e);
    }
  }

  lemma StandsInTable(parts: seq<Part>, list: seq<Entry>, e: Entry)
    requires list == Sort(Entries(parts)) && Stands(list, e)
    ensures e.id < |parts| && e.size == parts[e.id].size
    ensures parts[e.id].offset == 0 || parts[e.id].offset == e.offset
  {
    var k :| 0 <= k < |list| && list[k].id == e.id && list[k].size == e.size &&
      (list[k].offset == 0 || list[k].offset == e.offset);
    SortMembers(Entries(parts));
    assert list[k] in Entries(parts);
  }
}
