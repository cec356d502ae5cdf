/** How a table without offsets is laid out, whatever mixture of percentages and sizes in bytes it holds. */
module TableLayout {
  import opened Bits
  import opened PartInfos
  import opened Placement
  import opened PlacementSafety
  import opened Validation
  import opened Termination

  ghost predicate NoOffsets(parts: seq<Part>) {
    forall i | 0 <= i < |parts| :: parts[i].offset == 0 && parts[i].size > 0
  }

  /** Entry i, behind the rounded sizes of those before it, ends within so many bytes. */
  ghost predicate EndsInside(parts: seq<Part>, i: nat, bytes: nat)
    requires i < |parts|
  {
    RoundedSum(parts, i) + parts[i].size <= bytes
  }

  /** What the pass over the first n entries has made of them: one behind the other they end within the bytes of the
      blocks counted, and rounded up they fill no more unless all blocks are gone. */
  ghost predicate Fitting(parts: seq<Part>, r: Pass, n: nat, s: Space)
    requires n <= |parts| == |r.parts|
  {
    && NoOffsets(r.parts) && (forall i | n <= i < |parts| :: r.parts[i] == parts[i])
    && (r.total <= s.total ==> forall i | 0 <= i < n :: EndsInside(r.parts, i, r.total * s.blockSize))
    && (r.total < s.total ==> RoundedSum(r.parts, n) <= r.total * s.blockSize)
  }

  lemma {:induction false} RoundedSumAgrees(a: seq<Part>, b: seq<Part>, n: nat)
    requires n <= |a| && n <= |b| && forall i | 0 <= i < n :: a[i].size == b[i].size
    ensures RoundedSum(a, n) == RoundedSum(b, n)
  {
    if n == 0 {
    } else {
      RoundedSumAgrees(a, b, n - 1);
    }
  }

  /** Counting an entry in: some blocks, and no more bytes than they hold, also rounded
      up unless they are the last. */
  lemma FittingWith(parts: seq<Part>, r: Pass, n: nat, s: Space, blocks: nat, size: nat)
    requires n < |parts| == |r.parts| && Fitting(parts, r, n, s) && 0 < size && size + ALIGN <= WORD
    requires 0 < blocks && size <= blocks * s.blockSize
    requires r.total + blocks < s.total ==> AlignUp(size, ALIGN) <= blocks * s.blockSize
    ensures Fitting(parts, Pass(Success, r.parts[n := r.parts[n].(size := size)], r.total + blocks), n + 1, s)
  {
    var after := r.parts[n := r.parts[n].(size := size)];
    SumProduct(r.total, blocks, s.blockSize);
    forall i | 0 <= i <= n ensures RoundedSum(after, i) == RoundedSum(r.parts, i) {
      RoundedSumAgrees(after, r.parts, i);
    }
    RoundedSumStep(after, n);
    var bytes := (r.total + blocks) * s.blockSize;
    if r.total + blocks <= s.total {
      forall i | 0 <= i < n + 1 ensures EndsInside(after, i, bytes) {
        assert i < n ==> EndsInside(r.parts, i, r.total * s.blockSize);
      }
    }
  }

  /** A share is whole units, unless it is all that is left. */
  lemma ShareRounds(percent: nat, s: Space, used: nat, wanted: nat, blocks: nat, bytes: nat)
    requires Roomy(s) && s.total >= 100 && 1 <= percent <= 100 && used <= s.total && blocks > 0
    requires wanted == PercentBlocks(percent, s) && blocks == Share(used, wanted, s.total)
    requires bytes == blocks * s.blockSize
    ensures bytes + ALIGN <= WORD && (used + blocks < s.total ==> AlignUp(bytes, ALIGN) == bytes)
  {
    ShareFacts(percent, used, s, wanted, blocks);
    ShareFits(used, wanted, s.total);
    MulMonotone(s.blockSize, blocks, s.first + s.total);
    WholeUnits(bytes);
  }

  lemma WholeUnits(size: nat)
    requires size + ALIGN <= WORD
    ensures size % ALIGN == 0 ==> AlignUp(size, ALIGN) == size
  {
    AlignUpFacts(size, ALIGN);
    if size % ALIGN == 0 {
      MultiplesApart(size, AlignUp(size, ALIGN));
    }
  }

  lemma FittingPercentage(parts: seq<Part>, r: Pass, n: nat, s: Space)
    requires Roomy(s) && s.total >= 100 && n < |parts| == |r.parts| && Fitting(parts, r, n, s) && r.total <= s.total
    requires r.err == Success && parts[n].size <= 100 && ResolveStep(r, n, s).err == Success
    ensures Fitting(parts, ResolveStep(r, n, s), n + 1, s)
  {
    var wanted := PercentBlocks(parts[n].size, s);
    var blocks := Share(r.total, wanted, s.total);
    ShareFacts(parts[n].size, r.total, s, wanted, blocks);
    PercentStep(r, n, s, wanted, blocks, blocks * s.blockSize);
    ShareRounds(parts[n].size, s, r.total, wanted, blocks, blocks * s.blockSize);
    FittingWith(parts, r, n, s, blocks, blocks * s.blockSize);
  }

  lemma FittingExplicit(parts: seq<Part>, r: Pass, n: nat, s: Space)
    requires 0 < s.blockSize <= ALIGN && n < |parts| == |r.parts| && Fitting(parts, r, n, s)
    requires r.err == Success && parts[n].size > 100 && ResolveStep(r, n, s).err == Success
    requires parts[n].size + ALIGN <= WORD && r.total + AlignUp(parts[n].size, ALIGN) < WORD
    ensures Fitting(parts, ResolveStep(r, n, s), n + 1, s)
  {
    var blocks := AlignUp(parts[n].size, ALIGN);
    AlignUpFacts(parts[n].size, ALIGN);
    MulMonotone(blocks, 1, s.blockSize);
    FittingWith(parts, r, n, s, blocks, parts[n].size);
    assert r.parts[n := r.parts[n].(size := parts[n].size)] == r.parts;
  }

  lemma {:induction false} PassFitting(parts: seq<Part>, n: nat, s: Space)
    requires Roomy(s) && s.total >= 100 && Steady(parts, s) && NoOffsets(parts) && n <= |parts|
    requires Resolve(parts, n, s).err == Success
    ensures Fitting(parts, Resolve(parts, n, s), n, s)
  {
    if n == 0 {
    } else {
      var r := Resolve(parts, n - 1, s);
      PassFitting(parts, n - 1, s);
      assert SteadyAt(parts, n - 1, s);
      if parts[n - 1].size <= 100 {
        FittingPercentage(parts, r, n - 1, s);
      } else {
        FittingExplicit(parts, r, n - 1, s);
      }
    }
  }

  lemma FittingPackable(parts: seq<Part>, r: Pass, s: Space, minOffset: nat, limit: nat)
    requires Roomy(s) && s.total > 0 && (s.first * s.blockSize) % ALIGN == 0
    requires |r.parts| == |parts| && Fitting(parts, r, |parts|, s) && r.total <= s.total
    requires minOffset == s.MinOffset() && limit == s.MaxOffset() + 1
    ensures Packable(r.parts, minOffset, limit)
  {
    SpaceBounds(s);
    MulMonotone(s.blockSize, r.total, s.total);
    SumProduct(s.first, s.total, s.blockSize);
    forall i | 0 <= i < |parts| ensures minOffset + RoundedSum(r.parts, i) + r.parts[i].size <= limit {
      assert EndsInside(r.parts, i, r.total * s.blockSize);
    }
  }

  /** A table without offsets that is not turned down by the pass or for its total is laid out in table order, each
      entry at the rounded end of the one before, and all within the space: placing never fails. */
  lemma MixedLayout(parts: seq<Part>, s: Space)
    requires Roomy(s) && s.total >= 100 && (s.first * s.blockSize) % ALIGN == 0
    requires NoOffsets(parts) && Steady(parts, s)
    ensures var r, v := Resolve(parts, |parts|, s), Validated(parts, s);
            && v.Done?
            && v.err == (if r.err != Success then r.err else if r.total > s.total then NoSpace else Success)
            && (v.err == Success ==>
                  && InOrder(r.parts, v.parts, s.MinOffset())
                  && forall i | 0 <= i < |parts| :: v.parts[i].offset + r.parts[i].size <= s.MaxOffset() + 1)
  {
    var r := Resolve(parts, |parts|, s);
    ValidatedSteps(parts, s, r);
    if r.err == Success && r.total <= s.total {
      PassFitting(parts, |parts|, s);
      FittingPackable(parts, r, s, s.MinOffset(), s.MaxOffset() + 1);
      SettlePacks(r.parts, s.MinOffset(), s.MaxOffset() + 1);
    }
  }

  /** And the only error the pass itself can report of such a table is that a percentage finds nothing left. */
  lemma {:induction false} MixedErrors(parts: seq<Part>, n: nat, s: Space)
    requires 0 < s.blockSize <= ALIGN && n <= |parts| && NoOffsets(parts)
    ensures var r := Resolve(parts, n, s);
            && (r.err == Success || r.err == NoSpace)
            && forall i | 0 <= i < |parts| :: r.parts[i].offset == 0
  {
    if n == 0 {
    } else {
      MixedErrors(parts, n - 1, s);
    }
  }

  // Free entries beside fixed ones

  /** The entry in front stays there: nothing is ever placed before it. */
  lemma {:induction false} FrontStays(queue: seq<Entry>, placed: seq<Entry>, minOffset: nat, limit: nat)
    requires Bounds(minOffset, limit) && Spaced(placed, minOffset, limit, true) && Waiting(queue, minOffset, limit)
    requires placed != []
    ensures var r := Assign(queue, placed, minOffset, limit - 1);
            r.Placed? ==> r.list != [] && r.list[0] == placed[0]
    decreases |queue|
  {
    if queue != [] {
      var next := NextPlace(placed, queue[0].size, minOffset, limit - 1);
      if next.At? {
        var x := queue[0].(offset := next.end);
        PlaceOne(placed, queue[0], next.end, minOffset, limit);
        FrontOfSlot(placed, x, queue[0].size, minOffset, limit);
        if |queue| == 1 {
          assert queue[1..] == [];
        } else {
          FrontStays(queue[1..], Slot(placed, x), minOffset, limit);
        }
      }
    }
  }

  lemma FrontOfSlot(placed: seq<Entry>, x: Entry, size: nat, minOffset: nat, limit: nat)
    requires Bounds(minOffset, limit) && Spaced(placed, minOffset, limit, true) && placed != []
    requires FindGap(placed, 0, size, limit - 1) == At(x.offset)
    ensures Slot(placed, x)[0] == placed[0]
  {
    var j := FirstFit(placed, 0, size, minOffset, limit);
    BeforeAndAfter(placed, x, j + 1, minOffset, limit);
    SlotAfter(placed, x, j + 1);
  }

  lemma {:induction false} NonZeroIn(list: seq<Entry>, k: nat)
    requires k < |list| && list[k].offset != 0
    ensures list[k] in NonZeros(list)
    decreases |list|
  {
    if k < |list| - 1 {
      NonZeroIn(list[..|list| - 1], k);
    }
  }

  /** The front of the settled list is a fixed entry if there is one. */
  lemma SettledFront(parts: seq<Part>, minOffset: nat, limit: nat, j: nat)
    requires Bounds(minOffset, limit) && FixedOk(parts, minOffset, limit) && FreeOk(parts, minOffset, limit)
    requires j < |parts| && parts[j].offset != 0
    ensures var r := Settling(parts, minOffset, limit - 1);
            r.Placed? ==>
              && r.list != [] && r.list[0].id < |parts| && r.list[0] == EntryAt(parts, r.list[0].id)
              && r.list[0].offset != 0
  {
    NonZeroIn(Entries(parts), j);
    FixedMembers(parts, 0);
    FixedSpaced(parts, minOffset, limit);
    FreeWaiting(parts, minOffset, limit);
    FrontStays(Zeros(Entries(parts)), Sort(NonZeros(Entries(parts))), minOffset, limit);
  }

  lemma BehindFront(parts: seq<Part>, after: seq<Part>, list: seq<Entry>, minOffset: nat, limit: nat, i: nat)
    requires Bounds(minOffset, limit) && Covers(parts, after, list) && Spaced(list, minOffset, limit, false)
    requires i < |parts| && list[0].id != i
    ensures list[0].offset < after[i].offset
  {
    var k := Position(parts, list, i);
    SpacedOrder(list, minOffset, limit, false, 0, k);
  }

  /** The room before the first fixed entry is never used: every free one ends up behind it, so that a table with a
      free entry listed before it is not in order of position afterwards. */
  lemma FreeBehindFixed(parts: seq<Part>, minOffset: nat, limit: nat, i: nat, j: nat)
    requires Bounds(minOffset, limit) && FixedOk(parts, minOffset, limit) && FreeOk(parts, minOffset, limit)
    requires i < |parts| && parts[i].offset == 0
    requires j < |parts| && parts[j].offset != 0
    requires forall k | 0 <= k < |parts| && parts[k].offset != 0 :: parts[j].offset <= parts[k].offset
    ensures var v := Settle(parts, minOffset, limit - 1);
            v.Done? && (v.err == Success ==> v.parts[j].offset == parts[j].offset < v.parts[i].offset)
  {
    var r := Settling(parts, minOffset, limit - 1);
    SettlingSafe(parts, minOffset, limit);
    SettledFront(parts, minOffset, limit, j);
    SettleCovers(parts, minOffset, limit - 1);
    SettleKeeps(parts, minOffset, limit - 1);
    if r.Placed? {
      BehindFront(parts, WithOffsets(parts, r.list), r.list, minOffset, limit, i);
    }
  }
}
