/** The validator as the program runs it: sizes are rewritten in place, then a list of references is sorted again
    after every partition that gets an offset. */
module Validator {
  import opened PartInfos
  import opened Placement
  import opened PlacementSafety
  import opened Validation

  /** One round of the first loop. */
  method ResolveEntry(table: array<Part>, i: nat, s: Space, used: nat) returns (err: Error, totalBlocks: nat)
    requires 0 < s.blockSize <= ALIGN && i < table.Length
    modifies table
    ensures Pass(err, table[..], totalBlocks) == ResolveStep(Pass(Success, old(table[..]), used), i, s)
  {
    totalBlocks := used;
    if table[i].size <= 100 {
      var blocks := AlignUp(U64(s.total * table[i].size) / 100, s.Align());
      if U64(totalBlocks + blocks) > s.total {
        blocks := U64(s.total - totalBlocks);
        if blocks == 0 {
          return NoSpace, totalBlocks;
        }
      }
      table[i] := table[i].(size := U64(blocks * s.blockSize));
      totalBlocks := U64(totalBlocks + blocks);
    } else {
      if table[i].offset % ALIGN != 0 {
        return MisAligned, totalBlocks;
      }
      totalBlocks := U64(totalBlocks + AlignUp(table[i].size, ALIGN));
    }
    err := if OutsideRange(table[i], s) then OutOfRange else Success;
  }

  /** The first loop: percentages become sizes in bytes. */
  method ResolveSizes(table: array<Part>, s: Space) returns (err: Error, totalBlocks: nat)
    requires 0 < s.blockSize <= ALIGN
    modifies table
    ensures Pass(err, table[..], totalBlocks) == Resolve(old(table[..]), table.Length, s)
  {
    ghost var parts := table[..];
    err, totalBlocks := Success, 0;
    var i := 0;
    while i < table.Length
      invariant i <= table.Length
      invariant err == Success && Pass(err, table[..], totalBlocks) == Resolve(parts, i, s)
    {
      err, totalBlocks := ResolveEntry(table, i, s, totalBlocks);
      i := i + 1;
      if err != Success {
        ResolveStopped(parts, i, table.Length, s);
        return;
      }
    }
  }

  lemma {:induction false} ResolveStopped(parts: seq<Part>, i: nat, n: nat, s: Space)
    requires i <= n <= |parts| && 0 < s.blockSize <= ALIGN && Resolve(parts, i, s).err != Success
    ensures Resolve(parts, n, s) == Resolve(parts, i, s)
    decreases n
  {
    if i < n {
      ResolveStopped(parts, i, n - 1, s);
    }
  }

  /** The entries a list of references stands for. */
  function EntriesOf(parts: seq<Part>, list: seq<nat>): (r: seq<Entry>)
    requires forall k | 0 <= k < |list| :: list[k] < |parts|
    ensures |r| == |list| && forall k | 0 <= k < |list| :: r[k] == EntryAt(parts, list[k])
  {
    seq(|list|, k requires 0 <= k < |list| => EntryAt(parts, list[k]))
  }

  /** The references in order of offset. */
  method SortList(table: array<Part>, list: seq<nat>) returns (sorted: seq<nat>)
    requires forall k | 0 <= k < |list| :: list[k] < table.Length
    ensures |sorted| == |list| && forall k | 0 <= k < |sorted| :: sorted[k] < table.Length
    ensures EntriesOf(table[..], sorted) == Sort(EntriesOf(table[..], list))
  {
    var entries := EntriesOf(table[..], list);
    var r := Sort(entries);
    SortMembers(entries);
    forall k | 0 <= k < |r| ensures r[k].id < table.Length && r[k] == EntryAt(table[..], r[k].id) {
      assert r[k] in entries;
    }
    sorted := seq(|r|, k requires 0 <= k < |r| => r[k].id);
  }

  /** The search gives what it gives from the k-th placed entry on. */
  ghost predicate Searching(next: Gap, placed: seq<Entry>, k: nat, size: nat, maxOffset: nat) {
    next == if k < |placed| then FindGap(placed, k, size, maxOffset) else NoGap
  }

  /** What the search does once it has come to the placed entry j, counted from the first of the queue. */
  method TryGap(table: array<Part>, list: seq<nat>, j: nat, size: nat, maxOffset: nat, ghost placed: seq<Entry>,
                ghost k: nat,
                ghost next: Gap) returns (endOffset: nat, fits: bool)
    requires j < |list| && forall i | 0 <= i < |list| :: list[i] < table.Length
    requires k < |placed| && |placed| - k == |list| - j && EntriesOf(table[..], list[j..]) == placed[k..]
    requires Searching(next, placed, k, size, maxOffset)
    ensures if fits then next == At(endOffset) else Searching(next, placed, k + 1, size, maxOffset)
  {
    var pr := table[list[j]];
    assert placed[k..][0] == EntryAt(table[..], list[j]);
    endOffset := AlignUp(U64(pr.offset + pr.size), ALIGN);
    if j + 1 < |list| {
      assert placed[k..][1] == EntryAt(table[..], list[j + 1]);
      fits := U64(table[list[j + 1]].offset - endOffset) >= size;
    } else {
      fits := U64(U64(maxOffset + 1) - endOffset) >= size;
    }
  }

  lemma EntriesSuffix(parts: seq<Part>, list: seq<nat>, queue: seq<Entry>, placed: seq<Entry>, j: nat)
    requires forall i | 0 <= i < |list| :: list[i] < |parts|
    requires EntriesOf(parts, list) == queue + placed && |queue| <= j < |list|
    ensures EntriesOf(parts, list[j..]) == placed[j - |queue|..]
  {
    var a, b := EntriesOf(parts, list[j..]), placed[j - |queue|..];
    forall i | 0 <= i < |a| ensures a[i] == b[i] {
      assert EntriesOf(parts, list)[j + i] == (queue + placed)[j + i];
    }
  }

  lemma OffsetAt(parts: seq<Part>, list: seq<nat>, queue: seq<Entry>, placed: seq<Entry>, j: nat)
    requires forall i | 0 <= i < |list| :: list[i] < |parts|
    requires EntriesOf(parts, list) == queue + placed && Unplaced(queue) && Ordered(placed) && j < |list|
    ensures parts[list[j]].offset == 0 <==> j < |queue|
  {
    assert EntriesOf(parts, list)[j] == (queue + placed)[j];
  }

  /** The search for a place for the first entry of a sorted list. */
  method FindPlace(table: array<Part>, list: seq<nat>, minOffset: nat, maxOffset: nat,
                   ghost queue: seq<Entry>, ghost placed: seq<Entry>) returns (gap: Gap)
    requires forall k | 0 <= k < |list| :: list[k] < table.Length
    requires EntriesOf(table[..], list) == queue + placed && queue != [] && Unplaced(queue) && Ordered(placed)
    ensures gap == NextPlace(placed, queue[0].size, minOffset, maxOffset)
  {
    ghost var m := |queue|;
    ghost var next := NextPlace(placed, queue[0].size, minOffset, maxOffset);
    assert queue[0] == EntriesOf(table[..], list)[0];
    assert placed != [] ==> Searching(next, placed, 0, queue[0].size, maxOffset);
    var size := table[list[0]].size;
    var endOffset := minOffset;
    var j := 1;
    while j < |list|
      invariant 1 <= j <= |list|
      invariant j <= m ==> endOffset == minOffset
      invariant j > m ==> j < |list| && Searching(next, placed, j - m, size, maxOffset)
    {
      OffsetAt(table[..], list, queue, placed, j);
      if table[list[j]].offset != 0 {
        EntriesSuffix(table[..], list, queue, placed, j);
        var fits: bool;
        endOffset, fits := TryGap(table, list, j, size, maxOffset, placed, j - m, next);
        if fits {
          return At(endOffset);
        }
        if j + 1 == |list| {
          return NoGap;
        }
      }
      j := j + 1;
    }
    gap := At(endOffset);
  }

  // Placing one entry, as seen by the list of references

  lemma {:induction false} SlotOrdered(placed: seq<Entry>, x: Entry, w: nat)
    requires Ordered(placed) && x.offset > 0 && UpTo(placed, w) && x.offset <= w
    ensures Ordered(Slot(placed, x)) && UpTo(Slot(placed, x), w)
    decreases |placed|
  {
    if placed == [] {
    } else {
      var n := |placed| - 1;
      if placed[n].offset < x.offset {
        OrderedPush(placed, x);
      } else {
        var before := placed[..n];
        SlotOrdered(before, x, placed[n].offset);
        OrderedPush(Slot(before, x), placed[n]);
      }
    }
  }

  lemma SlotKeepsOrder(placed: seq<Entry>, x: Entry)
    requires Ordered(placed) && x.offset > 0
    ensures Ordered(Slot(placed, x))
  {
    var w := if placed == [] || placed[|placed| - 1].offset <= x.offset then x.offset else placed[|placed| - 1].offset;
    SlotOrdered(placed, x, w);
  }

  lemma MovedDistinct(queue: seq<Entry>, placed: seq<Entry>, x: Entry)
    requires queue != [] && Distinct(queue + placed) && x.id == queue[0].id
    ensures Distinct(queue[1..] + Slot(placed, x))
  {
    var j := SlotSomewhere(placed, x);
    var all, all' := queue + placed, queue[1..] + (placed[..j] + [x] + placed[j..]);
    var at := k => if k < |queue| - 1 + j then k + 1 else if k == |queue| - 1 + j then 0 else k;
    forall k | 0 <= k < |all'| ensures 0 <= at(k) < |all| && all'[k].id == all[at(k)].id {
    }
  }

  /** The offset of the first entry shows in the list and nowhere else. */
  lemma FirstSet(parts: seq<Part>, list: seq<nat>, queue: seq<Entry>, placed: seq<Entry>, end: nat)
    requires forall k | 0 <= k < |list| :: list[k] < |parts|
    requires queue != [] && EntriesOf(parts, list) == queue + placed && Distinct(queue + placed)
    ensures var z := list[0];
            EntriesOf(parts[z := parts[z].(offset := end)], list) == [queue[0].(offset := end)] + queue[1..] + placed
  {
    var z, all := list[0], queue + placed;
    var after := EntriesOf(parts[z := parts[z].(offset := end)], list);
    forall k | 0 < k < |list| ensures after[k] == all[k] {
      assert EntriesOf(parts, list)[k] == all[k] && EntriesOf(parts, list)[0] == all[0];
    }
    assert EntriesOf(parts, list)[0] == queue[0];
  }

  ghost predicate SameButOffsets(parts: seq<Part>, after: seq<Part>) {
    |after| == |parts| && forall i | 0 <= i < |parts| :: after[i] == parts[i].(offset := after[i].offset)
  }

  lemma AgreedAt(parts: seq<Part>, after: seq<Part>, settled: seq<Part>, list: seq<Entry>, i: nat)
    requires Covers(parts, settled, list) && Agree(after, list) && i < |parts|
    ensures i < |after| && after[i].offset == settled[i].offset
  {
    var k := Position(parts, list, i);
  }

  lemma AgreedEverywhere(parts: seq<Part>, after: seq<Part>, settled: seq<Part>, list: seq<Entry>)
    requires SameButOffsets(parts, after) && SameButOffsets(parts, settled)
    requires Covers(parts, settled, list) && Agree(after, list)
    ensures after == settled
  {
    forall i | 0 <= i < |parts| ensures after[i].offset == settled[i].offset {
      AgreedAt(parts, after, settled, list, i);
    }
  }

  /** A table that agrees with the list placing ends with is the table settling gives. */
  lemma AgreedTable(parts: seq<Part>, after: seq<Part>, list: seq<nat>, r: Outcome, minOffset: nat, maxOffset: nat)
    requires SameButOffsets(parts, after) && forall k | 0 <= k < |list| :: list[k] < |parts|
    requires r == Settling(parts, minOffset, maxOffset) && !r.Forever? && r.list == EntriesOf(after, list)
    ensures after == WithOffsets(parts, r.list)
  {
    SettleCovers(parts, minOffset, maxOffset);
    AgreedEverywhere(parts, after, WithOffsets(parts, r.list), r.list);
  }

  lemma FirstIsFree(parts: seq<Part>, list: seq<nat>, queue: seq<Entry>, placed: seq<Entry>)
    requires list != [] && forall k | 0 <= k < |list| :: list[k] < |parts|
    requires EntriesOf(parts, list) == queue + placed && Unplaced(queue) && Ordered(placed)
    ensures parts[list[0]].offset == 0 <==> queue != []
    ensures queue != [] ==> queue[0] == EntryAt(parts, list[0])
  {
    OffsetAt(parts, list, queue, placed, 0);
    assert EntriesOf(parts, list)[0] == (queue + placed)[0];
  }

  /** The list at the head of the second loop: the queue, and behind it the placed entries in order. */
  ghost predicate Split(parts: seq<Part>, list: seq<nat>, queue: seq<Entry>, placed: seq<Entry>) {
    && (forall k | 0 <= k < |list| :: list[k] < |parts|)
    && EntriesOf(parts, list) == queue + placed && Distinct(queue + placed) && Unplaced(queue) && Ordered(placed)
  }

  /** One round of the second loop, for an entry that has a place. */
  method PlaceFirst(table: array<Part>, list: seq<nat>, end: nat, ghost queue: seq<Entry>, ghost placed: seq<Entry>)
    returns (sorted: seq<nat>)
    requires Split(table[..], list, queue, placed) && queue != [] && end != 0
    modifies table
    ensures SameButOffsets(old(table[..]), table[..]) && |sorted| == |list|
    ensures Split(table[..], sorted, queue[1..], Slot(placed, queue[0].(offset := end)))
  {
    ghost var x := queue[0].(offset := end);
    FirstIsFree(table[..], list, queue, placed);
    FirstSet(table[..], list, queue, placed, end);
    table[list[0]] := table[list[0]].(offset := end);
    sorted := SortList(table, list);
    assert table[..] == old(table[..])[list[0] := old(table[..])[list[0]].(offset := end)];
    SortAgain(x, queue[1..], placed);
    SlotKeepsOrder(placed, x);
    MovedDistinct(queue, placed, x);
  }

  lemma AssignStep(queue: seq<Entry>, placed: seq<Entry>, next: Gap, minOffset: nat, maxOffset: nat)
    requires queue != [] && next == NextPlace(placed, queue[0].size, minOffset, maxOffset)
    ensures Assign(queue, placed, minOffset, maxOffset) ==
            if next.NoGap? then NoRoom(queue + placed)
            else if next.end == 0 then Forever
            else Assign(queue[1..], Slot(placed, queue[0].(offset := next.end)), minOffset, maxOffset)
  {
  }

  /** The second loop. Where an entry is placed at 0 it is still without an offset, and the program places it
      again for ever: that is hangs. */
  method Placing(table: array<Part>, refs: seq<nat>, minOffset: nat, maxOffset: nat,
                 ghost queue0: seq<Entry>, ghost placed0: seq<Entry>)
    returns (err: Error, list: seq<nat>, hangs: bool)
    requires refs != [] && Split(table[..], refs, queue0, placed0)
    modifies table
    ensures SameButOffsets(old(table[..]), table[..]) && forall k | 0 <= k < |list| :: list[k] < table.Length
    ensures Assign(queue0, placed0, minOffset, maxOffset) ==
            if hangs then Forever
            else if err == Success then Placed(EntriesOf(table[..], list)) else NoRoom(EntriesOf(table[..], list))
    ensures err == Success || err == NoSpace
  {
    ghost var queue, placed := queue0, placed0;
    list := refs;
    FirstIsFree(table[..], list, queue, placed);
    while table[list[0]].offset == 0
      invariant list != [] && Split(table[..], list, queue, placed)
      invariant table[list[0]].offset == 0 <==> queue != []
      invariant SameButOffsets(old(table[..]), table[..])
      invariant Assign(queue, placed, minOffset, maxOffset) == Assign(queue0, placed0, minOffset, maxOffset)
      decreases |queue|
    {
      var gap := FindPlace(table, list, minOffset, maxOffset, queue, placed);
      AssignStep(queue, placed, gap, minOffset, maxOffset);
      if gap.NoGap? {
        return NoSpace, list, false;
      }
      if gap.end == 0 {
        return Success, list, true;
      }
      list := PlaceFirst(table, list, gap.end, queue, placed);
      queue, placed := queue[1..], Slot(placed, queue[0].(offset := gap.end));
      FirstIsFree(table[..], list, queue, placed);
    }
    err, hangs := Success, false;
  }

  /** The second half: a list of references is sorted, and as long as one without an offset
      heads it, that one is placed. */
  method AssignOffsets(table: array<Part>, minOffset: nat, maxOffset: nat) returns (err: Error, hangs: bool)
    requires table.Length > 0
    modifies table
    ensures (if hangs then Hangs else Done(err, table[..])) == Settle(old(table[..]), minOffset, maxOffset)
  {
    ghost var parts := table[..];
    var list := seq(table.Length, k => k);
    assert EntriesOf(parts, list) == Entries(parts);
    list := SortList(table, list);
    Partition(parts);
    err, list, hangs := Placing(table, list, minOffset, maxOffset, Zeros(Entries(parts)),
        Sort(NonZeros(Entries(parts))));
    if !hangs {
      AgreedTable(parts, table[..], list, Settling(parts, minOffset, maxOffset), minOffset, maxOffset);
    }
  }

  /** Checks a partition table and fills in sizes and offsets. An empty table makes the program read past its list,
      and hangs is where its loop places one entry for ever. */
  method Validate(table: array<Part>, s: Space) returns (err: Error, hangs: bool)
    requires s.blockSize <= ALIGN && table.Length > 0
    modifies table
    ensures (if hangs then Hangs else Done(err, table[..])) == Validated(old(table[..]), s)
  {
    if s.first == 0 || s.blockSize == 0 {
      return BadParam, false;
    }
    var totalBlocks;
    err, totalBlocks := ResolveSizes(table, s);
    hangs := false;
    ValidatedSteps(old(table[..]), s, Resolve(old(table[..]), table.Length, s));
    if err != Success {
      return;
    }
    if totalBlocks > s.total {
      return NoSpace, false;
    }
    err, hangs := AssignOffsets(table, s.MinOffset(), s.MaxOffset());
  }
}
