/** Checking a partition table and filling in its sizes and offsets. */
module Validation {
  import opened Bits
  import opened PartInfos
  import opened Placement
  import opened PlacementSafety

  function EntryAt(parts: seq<Part>, i: nat): Entry
    requires i < |parts|
  {
    Entry(i, parts[i].offset, parts[i].size)
  }

  function Entries(parts: seq<Part>): (r: seq<Entry>)
    ensures |r| == |parts| && forall i | 0 <= i < |parts| :: r[i] == EntryAt(parts, i)
  {
    seq(|parts|, i requires 0 <= i < |parts| => EntryAt(parts, i))
  }

  /** The table with the offsets of the listed entries filled in. */
  function WithOffsets(parts: seq<Part>, list: seq<Entry>): (r: seq<Part>)
    ensures |r| == |parts|
    ensures forall i | 0 <= i < |parts| :: r[i] == parts[i].(offset := r[i].offset)
    decreases |list|
  {
    if list == [] then parts
    else
      var n := |list| - 1;
      var p := WithOffsets(parts, list[..n]);
      if list[n].id < |p| then p[list[n].id := p[list[n].id].(offset := list[n].offset)] else p
  }

  datatype Verdict = Done(err: Error, parts: seq<Part>) | Hangs

  function Settling(parts: seq<Part>, minOffset: nat, maxOffset: nat): Outcome {
    Assign(Zeros(Entries(parts)), Sort(NonZeros(Entries(parts))), minOffset, maxOffset)
  }

  /** The second half: offsets for entries that have none. */
  function Settle(parts: seq<Part>, minOffset: nat, maxOffset: nat): Verdict {
    match Settling(parts, minOffset, maxOffset)
    case Placed(r) => Done(Success, WithOffsets(parts, r))
    case NoRoom(r) => Done(NoSpace, WithOffsets(parts, r))
    case Forever => Hangs
  }

  function Validated(parts: seq<Part>, s: Space): Verdict
    requires s.blockSize <= ALIGN
  {
    if s.first == 0 || s.blockSize == 0 then Done(BadParam, parts)
    else
      var r := Resolve(parts, |parts|, s);
      if r.err != Success then Done(r.err, r.parts)
      else if r.total > s.total then Done(NoSpace, r.parts)
      else Settle(r.parts, s.MinOffset(), s.MaxOffset())
  }

  // Members of the lists

  lemma {:induction false} SortMembers(list: seq<Entry>)
    ensures forall e | e in Sort(list) :: e in list
    decreases |list|
  {
    if list == [] {
    } else {
      var n := |list| - 1;
      SortMembers(list[..n]);
      var j := InsertSomewhere(Sort(list[..n]), list[n]);
      forall e | e in Sort(list) ensures e in list {
        if e != list[n] {
          assert e in Sort(list[..n]);
          assert e in list[..n];
        }
      }
    }
  }

  lemma {:induction false} ZerosMembers(list: seq<Entry>)
    ensures forall e | e in Zeros(list) :: e in list && e.offset == 0
    ensures forall e | e in NonZeros(list) :: e in list && e.offset != 0
    ensures |Zeros(list)| + |NonZeros(list)| == |list|
    decreases |list|
  {
    if list == [] {
    } else {
      ZerosMembers(list[..|list| - 1]);
    }
  }

  /** The queue and the sorted rest are together the sorted table. */
  lemma Partition(parts: seq<Part>)
    ensures var list := Entries(parts);
            && Sort(list) == Zeros(list) + Sort(NonZeros(list))
            && Unplaced(Zeros(list)) && Ordered(Sort(NonZeros(list)))
            && Distinct(Zeros(list) + Sort(NonZeros(list))) && AllKept(list, Zeros(list) + Sort(NonZeros(list)))
  {
    var list := Entries(parts);
    SortSplits(list);
    ZerosUnplaced(list);
    SortDistinct(list);
    SortKeeps(list);
  }

  // Tables and lists that agree

  /** The listed entries say what the table says. */
  ghost predicate Agree(parts: seq<Part>, list: seq<Entry>) {
    forall k | 0 <= k < |list| :: list[k].id < |parts| && list[k] == EntryAt(parts, list[k].id)
  }

  lemma {:induction false} WithOffsetsOther(parts: seq<Part>, list: seq<Entry>, i: nat)
    requires i < |parts| && Absent(list, i)
    ensures WithOffsets(parts, list)[i] == parts[i]
    decreases |list|
  {
    if list == [] {
    } else {
      WithOffsetsOther(parts, list[..|list| - 1], i);
    }
  }

  lemma {:induction false} WithOffsetsAt(parts: seq<Part>, list: seq<Entry>, k: nat)
    requires Distinct(list) && k < |list| && list[k].id < |parts|
    ensures WithOffsets(parts, list)[list[k].id].offset == list[k].offset
    decreases |list|
  {
    var n := |list| - 1;
    if k < n {
      WithOffsetsAt(parts, list[..n], k);
    }
  }

  /** Some entry of the list has the id and size of e. */
  ghost predicate From(list: seq<Entry>, e: Entry) {
    exists k | 0 <= k < |list| :: list[k].id == e.id && list[k].size == e.size
  }

  ghost predicate AllFrom(after: seq<Entry>, before: seq<Entry>) {
    forall k | 0 <= k < |after| :: From(before, after[k])
  }

  lemma FromAt(list: seq<Entry>, k: nat, e: Entry)
    requires k < |list| && list[k].id == e.id && list[k].size == e.size
    ensures From(list, e)
  {
  }

  lemma FromTrans(a: seq<Entry>, b: seq<Entry>, c: seq<Entry>)
    requires AllFrom(a, b) && AllFrom(b, c)
    ensures AllFrom(a, c)
  {
    forall k | 0 <= k < |a| ensures From(c, a[k]) {
      assert From(b, a[k]);
      var j :| 0 <= j < |b| && b[j].id == a[k].id && b[j].size == a[k].size;
      assert From(c, b[j]);
      var i :| 0 <= i < |c| && c[i].id == b[j].id && c[i].size == b[j].size;
      FromAt(c, i, a[k]);
    }
  }

  lemma {:induction false} AssignFrom(queue: seq<Entry>, placed: seq<Entry>, minOffset: nat, maxOffset: nat)
    ensures var r := Assign(queue, placed, minOffset, maxOffset);
            r.Placed? || r.NoRoom? ==> AllFrom(r.list, queue + placed)
    decreases |queue|
  {
    var r, all := Assign(queue, placed, minOffset, maxOffset), queue + placed;
    var next := if queue == [] then NoGap else NextPlace(placed, queue[0].size, minOffset, maxOffset);
    if next.NoGap? {
      if r.Placed? || r.NoRoom? {
        assert r.list == all;
        forall k | 0 <= k < |all| ensures From(all, all[k]) {
          FromAt(all, k, all[k]);
        }
      }
    } else if next.end != 0 {
      var x := queue[0].(offset := next.end);
      var j := SlotSomewhere(placed, x);
      AssignFrom(queue[1..], Slot(placed, x), minOffset, maxOffset);
      MovedFrom(queue, placed, x, j);
      if r.Placed? || r.NoRoom? {
        FromTrans(r.list, queue[1..] + Slot(placed, x), all);
      }
    }
  }

  lemma MovedFrom(queue: seq<Entry>, placed: seq<Entry>, x: Entry, j: nat)
    requires queue != [] && x.id == queue[0].id && x.size == queue[0].size && j <= |placed|
    ensures AllFrom(queue[1..] + (placed[..j] + [x] + placed[j..]), queue + placed)
  {
    var all, all' := queue + placed, queue[1..] + (placed[..j] + [x] + placed[j..]);
    forall k | 0 <= k < |all'| ensures From(all, all'[k]) {
      var m := k - (|queue| - 1);
      var i := if m < 0 then k + 1 else if m < j then |queue| + m else if m == j then 0 else |queue| + m - 1;
      FromAt(all, i, all'[k]);
    }
  }

  /** What settling makes of a table: the list it ends with covers the table, once each, and agrees with it. */
  ghost predicate Covers(parts: seq<Part>, after: seq<Part>, list: seq<Entry>) {
    && |after| == |parts| == |list|
    && Distinct(list) && Agree(after, list)
    && (forall i | 0 <= i < |parts| :: Kept(list, EntryAt(parts, i)))
  }

  lemma SettleCovers(parts: seq<Part>, minOffset: nat, maxOffset: nat)
    ensures var r := Settling(parts, minOffset, maxOffset);
            r.Placed? || r.NoRoom? ==> Covers(parts, WithOffsets(parts, r.list), r.list)
  {
    var list := Entries(parts);
    var queue, placed := Zeros(list), Sort(NonZeros(list));
    var r := Settling(parts, minOffset, maxOffset);
    Partition(parts);
    if r.Placed? || r.NoRoom? {
      AssignKeeps(queue, placed, minOffset, maxOffset);
      AssignDistinct(queue, placed, minOffset, maxOffset);
      AssignFrom(queue, placed, minOffset, maxOffset);
      KeptThrough(list, queue + placed, r.list);
      assert Sort(list) == queue + placed;
      SortFrom(list);
      FromTrans(r.list, queue + placed, list);
      AgreeWithOffsets(parts, r.list);
      forall i | 0 <= i < |parts| ensures Kept(r.list, EntryAt(parts, i)) {
        assert Kept(r.list, list[i]);
      }
    }
  }

  lemma SortFrom(list: seq<Entry>)
    ensures AllFrom(Sort(list), list)
  {
    SortMembers(list);
    forall k | 0 <= k < |Sort(list)| ensures From(list, Sort(list)[k]) {
      assert Sort(list)[k] in list;
      var j :| 0 <= j < |list| && list[j] == Sort(list)[k];
      FromAt(list, j, Sort(list)[k]);
    }
  }

  lemma KeptThrough(a: seq<Entry>, b: seq<Entry>, c: seq<Entry>)
    requires AllKept(a, b) && AllKept(b, c)
    ensures AllKept(a, c)
  {
    forall k | 0 <= k < |a| ensures Kept(c, a[k]) {
      assert Kept(b, a[k]);
      var j :| 0 <= j < |b| && b[j].id == a[k].id && b[j].size == a[k].size &&
        (a[k].offset == 0 || b[j].offset == a[k].offset);
      assert Kept(c, b[j]);
      var i :| 0 <= i < |c| && c[i].id == b[j].id && c[i].size == b[j].size &&
        (b[j].offset == 0 || c[i].offset == b[j].offset);
      KeptAt(c, i, a[k]);
    }
  }

  lemma AgreeWithOffsets(parts: seq<Part>, list: seq<Entry>)
    requires Distinct(list) && AllFrom(list, Entries(parts))
    ensures Agree(WithOffsets(parts, list), list)
  {
    var p := WithOffsets(parts, list);
    forall k | 0 <= k < |list| ensures list[k].id < |p| && list[k] == EntryAt(p, list[k].id) {
      assert From(Entries(parts), list[k]);
      WithOffsetsAt(parts, list, k);
    }
  }

  // Fixed and free entries together

  /** The entries with offsets are aligned, in range and apart, even after rounding their ends up. */
  ghost predicate FixedOk(parts: seq<Part>, minOffset: nat, limit: nat) {
    && (forall i | 0 <= i < |parts| && parts[i].offset != 0 ::
          InPlace(EntryAt(parts, i), minOffset, limit) && EntryAt(parts, i).End() <= limit)
    && (forall i, j | 0 <= i < j < |parts| && parts[i].offset != 0 && parts[j].offset != 0 ::
          EntryAt(parts, i).End() <= parts[j].offset || EntryAt(parts, j).End() <= parts[i].offset)
  }

  /** The entries without offsets are not empty and fit the space, and their sizes are
      aligned but perhaps the last. */
  ghost predicate FreeOk(parts: seq<Part>, minOffset: nat, limit: nat) {
    && (forall i | 0 <= i < |parts| && parts[i].offset == 0 :: parts[i].size > 0 && minOffset + parts[i].size <= limit)
    && (forall i, j | 0 <= i < j < |parts| && parts[i].offset == 0 && parts[j].offset == 0 ::
         parts[i].size % ALIGN == 0)
  }

  /** No two partitions share a byte, and all are aligned and in range. */
  ghost predicate Sound(parts: seq<Part>, minOffset: nat, limit: nat) {
    && (forall i | 0 <= i < |parts| :: InPlace(EntryAt(parts, i), minOffset, limit))
    && (forall i, j | 0 <= i < j < |parts| ::
          parts[i].offset + parts[i].size <= parts[j].offset || parts[j].offset + parts[j].size <= parts[i].offset)
  }

  lemma FixedMembers(parts: seq<Part>, k: nat)
    requires k < |Sort(NonZeros(Entries(parts)))|
    ensures var e := Sort(NonZeros(Entries(parts)))[k];
            e.id < |parts| && e == EntryAt(parts, e.id) && e.offset != 0
  {
    var list := Entries(parts);
    SortMembers(NonZeros(list));
    ZerosMembers(list);
    assert Sort(NonZeros(list))[k] in NonZeros(list);
  }

  lemma FixedApart(parts: seq<Part>, minOffset: nat, limit: nat, i: nat, j: nat)
    requires Bounds(minOffset, limit) && FixedOk(parts, minOffset, limit)
    requires i < |parts| && j < |parts| && i != j && 0 < parts[i].offset <= parts[j].offset
    ensures Behind(EntryAt(parts, i), EntryAt(parts, j))
  {
    assert InPlace(EntryAt(parts, j), minOffset, limit);
    EndFacts(EntryAt(parts, j));
  }

  lemma DistinctTail(a: seq<Entry>, b: seq<Entry>, k: nat)
    requires Distinct(a + b) && k + 1 < |b|
    ensures b[k].id != b[k + 1].id
  {
    assert (a + b)[|a| + k] == b[k] && (a + b)[|a| + k + 1] == b[k + 1];
  }

  lemma FixedIds(parts: seq<Part>, k: nat)
    requires k + 1 < |Sort(NonZeros(Entries(parts)))|
    ensures var list := Sort(NonZeros(Entries(parts)));
            list[k].id != list[k + 1].id && 0 < list[k].offset <= list[k + 1].offset
  {
    var list := Entries(parts);
    SortSplits(list);
    SortDistinct(list);
    DistinctTail(Zeros(list), Sort(NonZeros(list)), k);
  }

  /** The list consists of fixed entries of the table, no two neighbours the same, in order of offset. */
  ghost predicate FixedList(parts: seq<Part>, list: seq<Entry>) {
    && (forall k | 0 <= k < |list| ::
          list[k].id < |parts| && list[k] == EntryAt(parts, list[k].id) && list[k].offset > 0)
    && (forall k | 0 <= k < |list| - 1 :: list[k].id != list[k + 1].id && list[k].offset <= list[k + 1].offset)
  }

  lemma FixedListSpaced(parts: seq<Part>, list: seq<Entry>, minOffset: nat, limit: nat)
    requires Bounds(minOffset, limit) && FixedOk(parts, minOffset, limit) && FixedList(parts, list)
    ensures Spaced(list, minOffset, limit, true)
  {
    forall k | 0 <= k < |list| - 1 ensures Behind(list[k], list[k + 1]) {
      FixedApart(parts, minOffset, limit, list[k].id, list[k + 1].id);
    }
  }

  lemma FixedSpaced(parts: seq<Part>, minOffset: nat, limit: nat)
    requires Bounds(minOffset, limit) && FixedOk(parts, minOffset, limit)
    ensures Spaced(Sort(NonZeros(Entries(parts))), minOffset, limit, true)
  {
    SortedFixed(parts);
    FixedListSpaced(parts, Sort(NonZeros(Entries(parts))), minOffset, limit);
  }

  lemma SortedFixed(parts: seq<Part>)
    ensures FixedList(parts, Sort(NonZeros(Entries(parts))))
  {
    var n := |Sort(NonZeros(Entries(parts)))|;
    forall k | 0 <= k < n
      ensures var e := Sort(NonZeros(Entries(parts)))[k]; e.id < |parts| && e == EntryAt(parts, e.id) && e.offset > 0 {
      FixedMembers(parts, k);
    }
    forall k | 0 <= k < n - 1
      ensures var l := Sort(NonZeros(Entries(parts))); l[k].id != l[k + 1].id && l[k].offset <= l[k + 1].offset {
      FixedIds(parts, k);
    }
  }

  ghost predicate Rising(list: seq<Entry>) {
    forall j, k | 0 <= j < k < |list| :: list[j].id < list[k].id
  }

  lemma {:induction false} ZerosRise(list: seq<Entry>)
    requires Rising(list)
    ensures Rising(Zeros(list))
    decreases |list|
  {
    if list == [] {
    } else {
      var n := |list| - 1;
      ZerosRise(list[..n]);
      ZerosMembers(list[..n]);
      forall k | 0 <= k < |Zeros(list[..n])| ensures Zeros(list[..n])[k].id < list[n].id {
        assert Zeros(list[..n])[k] in list[..n];
      }
    }
  }

  lemma FreeWaiting(parts: seq<Part>, minOffset: nat, limit: nat)
    requires FreeOk(parts, minOffset, limit)
    ensures Waiting(Zeros(Entries(parts)), minOffset, limit)
  {
    var list := Entries(parts);
    var queue := Zeros(list);
    ZerosRise(list);
    ZerosMembers(list);
    forall k | 0 <= k < |queue|
      ensures queue[k].id < |parts| && queue[k] == EntryAt(parts, queue[k].id) && queue[k].offset == 0 {
      assert queue[k] in list;
    }
    forall k | 0 <= k < |queue| - 1 ensures queue[k].size % ALIGN == 0 {
      assert queue[k].id < queue[k + 1].id;
    }
  }

  lemma CoveredSound(parts: seq<Part>, after: seq<Part>, list: seq<Entry>, minOffset: nat, limit: nat)
    requires Bounds(minOffset, limit) && Covers(parts, after, list) && Spaced(list, minOffset, limit, false)
    ensures Sound(after, minOffset, limit)
  {
    forall i | 0 <= i < |after| ensures InPlace(EntryAt(after, i), minOffset, limit) {
      var k := Position(parts, list, i);
    }
    forall i, j | 0 <= i < j < |after|
      ensures after[i].offset + after[i].size <= after[j].offset || after[j].offset + after[j].size <= after[i].offset {
      var k, l := Position(parts, list, i), Position(parts, list, j);
      SpacedDisjoint(list, minOffset, limit, if k < l then k else l, if k < l then l else k);
    }
  }

  ghost function Position(parts: seq<Part>, list: seq<Entry>, i: nat): (k: nat)
    requires i < |parts| && Kept(list, EntryAt(parts, i))
    ensures k < |list| && list[k].id == i && (parts[i].offset == 0 || list[k].offset == parts[i].offset)
  {
    var k :| 0 <= k < |list| && list[k].id == i && list[k].size == parts[i].size &&
      (parts[i].offset == 0 || list[k].offset == parts[i].offset);
    k
  }

  /** Settling changes nothing but the offsets of entries that had none. */
  lemma SettleKeeps(parts: seq<Part>, minOffset: nat, maxOffset: nat)
    ensures var v := Settle(parts, minOffset, maxOffset);
            v.Done? ==>
              && |v.parts| == |parts|
              && (forall i | 0 <= i < |parts| :: v.parts[i] == parts[i].(offset := v.parts[i].offset))
              && (forall i | 0 <= i < |parts| && parts[i].offset != 0 :: v.parts[i] == parts[i])
  {
    var r := Settling(parts, minOffset, maxOffset);
    SettleCovers(parts, minOffset, maxOffset);
    if !r.Forever? {
      CoveredKeeps(parts, WithOffsets(parts, r.list), r.list);
    }
  }

  lemma CoveredKeeps(parts: seq<Part>, after: seq<Part>, list: seq<Entry>)
    requires Covers(parts, after, list)
    ensures forall i | 0 <= i < |parts| && parts[i].offset != 0 :: after[i].offset == parts[i].offset
  {
    forall i | 0 <= i < |parts| && parts[i].offset != 0 ensures after[i].offset == parts[i].offset {
      var k := Position(parts, list, i);
    }
  }

  lemma SettlingSafe(parts: seq<Part>, minOffset: nat, limit: nat)
    requires Bounds(minOffset, limit) && FixedOk(parts, minOffset, limit) && FreeOk(parts, minOffset, limit)
    ensures var r := Settling(parts, minOffset, limit - 1);
            !r.Forever? && (r.Placed? ==> Spaced(r.list, minOffset, limit, false))
  {
    FixedSpaced(parts, minOffset, limit);
    FreeWaiting(parts, minOffset, limit);
    AssignSafe(Zeros(Entries(parts)), Sort(NonZeros(Entries(parts))), minOffset, limit);
  }

  /** With sound fixed entries and whole units for the free ones, settling ends, and on success no two partitions
      overlap or leave the space. */
  lemma MixedTableSafe(parts: seq<Part>, minOffset: nat, limit: nat)
    requires Bounds(minOffset, limit) && FixedOk(parts, minOffset, limit) && FreeOk(parts, minOffset, limit)
    ensures var v := Settle(parts, minOffset, limit - 1);
            v.Done? && (v.err == Success ==> Sound(v.parts, minOffset, limit))
  {
    var r := Settling(parts, minOffset, limit - 1);
    SettlingSafe(parts, minOffset, limit);
    if r.Placed? {
      SpacedSound(parts, r.list, minOffset, limit);
    }
  }

  lemma SpacedSound(parts: seq<Part>, list: seq<Entry>, minOffset: nat, limit: nat)
    requires Bounds(minOffset, limit) && Spaced(list, minOffset, limit, false)
    requires Settling(parts, minOffset, limit - 1) == Placed(list)
    ensures Sound(WithOffsets(parts, list), minOffset, limit)
  {
    SettleCovers(parts, minOffset, limit - 1);
    CoveredSound(parts, WithOffsets(parts, list), list, minOffset, limit);
  }

  // A table of percentages

  lemma {:induction false} SizeSumGrows(parts: seq<Part>, j: nat, k: nat)
    requires j <= k <= |parts|
    ensures SizeSum(parts, j) <= SizeSum(parts, k)
    decreases k
  {
    if j < k {
      SizeSumGrows(parts, j, k - 1);
    }
  }

  lemma {:induction false} SizesAligned(parts: seq<Part>, k: nat)
    requires k <= |parts| && forall i | 0 <= i < k :: parts[i].size % ALIGN == 0
    ensures SizeSum(parts, k) % ALIGN == 0
  {
    if k == 0 {
    } else {
      SizesAligned(parts, k - 1);
      SumAligned(SizeSum(parts, k - 1), parts[k - 1].size);
    }
  }

  lemma {:induction false} RoundedSumGrows(parts: seq<Part>, n: nat, m: nat)
    requires n <= m <= |parts|
    ensures RoundedSum(parts, n) <= RoundedSum(parts, m)
    decreases m
  {
    if n < m {
      RoundedSumGrows(parts, n, m - 1);
    }
  }

  lemma {:induction false} RoundedAligned(parts: seq<Part>, n: nat)
    requires n <= |parts| && forall i | 0 <= i < n :: parts[i].size + ALIGN <= WORD
    ensures RoundedSum(parts, n) % ALIGN == 0
  {
    if n == 0 {
    } else {
      RoundedAligned(parts, n - 1);
      AlignUpFacts(parts[n - 1].size, ALIGN);
      SumAligned(RoundedSum(parts, n - 1), AlignUp(parts[n - 1].size, ALIGN));
    }
  }

  /** Sizes of whole units are not rounded. */
  lemma {:induction false} RoundedIsExact(parts: seq<Part>, n: nat)
    requires n <= |parts| && forall i | 0 <= i < n :: parts[i].size + ALIGN <= WORD && parts[i].size % ALIGN == 0
    ensures RoundedSum(parts, n) == SizeSum(parts, n)
  {
    if n == 0 {
    } else {
      RoundedIsExact(parts, n - 1);
      AlignUpFacts(parts[n - 1].size, ALIGN);
      MultiplesApart(parts[n - 1].size, AlignUp(parts[n - 1].size, ALIGN));
    }
  }

  /** The entries in table order, each at the rounded end of the one before. */
  ghost function Packing(parts: seq<Part>, minOffset: nat): (r: seq<Entry>)
    ensures |r| == |parts|
    ensures forall i | 0 <= i < |parts| :: r[i] == Entry(i, minOffset + RoundedSum(parts, i), parts[i].size)
  {
    seq(|parts|, i requires 0 <= i < |parts| => Entry(i, minOffset + RoundedSum(parts, i), parts[i].size))
  }

  /** Free entries that fit together in table order. */
  ghost predicate Packable(parts: seq<Part>, minOffset: nat, limit: nat) {
    && Bounds(minOffset, limit)
    && (forall i | 0 <= i < |parts| :: parts[i].offset == 0 && parts[i].size > 0)
    && (forall i | 0 <= i < |parts| :: minOffset + RoundedSum(parts, i) + parts[i].size <= limit)
  }

  lemma PackingStep(parts: seq<Part>, minOffset: nat, limit: nat, k: nat)
    requires Packable(parts, minOffset, limit) && k < |parts|
    ensures FollowedAtEnd(Packing(parts, minOffset), k)
  {
    RoundedAligned(parts, k);
    SumAligned(minOffset, RoundedSum(parts, k));
    EndRounded(Entry(k, minOffset + RoundedSum(parts, k), parts[k].size), AlignUp(parts[k].size, ALIGN));
    RoundedSumStep(parts, k);
  }

  lemma RoundedSumStep(parts: seq<Part>, k: nat)
    requires k < |parts| && parts[k].size + ALIGN <= WORD
    ensures RoundedSum(parts, k + 1) == RoundedSum(parts, k) + AlignUp(parts[k].size, ALIGN)
    ensures RoundedSum(parts, k) + parts[k].size <= RoundedSum(parts, k + 1)
  {
    AlignUpFacts(parts[k].size, ALIGN);
  }

  lemma EndRounded(e: Entry, size: nat)
    requires e.offset % ALIGN == 0 && e.offset + e.size + ALIGN <= WORD && size == AlignUp(e.size, ALIGN)
    ensures e.End() == e.offset + size
  {
    EndFacts(e);
    AlignUpFacts(e.size, ALIGN);
    SumAligned(e.offset, size);
    MultiplesApart(e.End(), e.offset + size);
  }

  lemma PackingSnug(parts: seq<Part>, minOffset: nat, limit: nat)
    requires Packable(parts, minOffset, limit)
    ensures Snug(Packing(parts, minOffset), minOffset, limit)
  {
    var list := Packing(parts, minOffset);
    forall k | 0 <= k < |list| ensures FollowedAtEnd(list, k) {
      PackingStep(parts, minOffset, limit, k);
    }
    forall j, k | 0 <= j < k < |list| ensures list[j].offset < list[k].offset {
      PackingRises(parts, minOffset, limit, j, k);
    }
  }

  lemma PackingRises(parts: seq<Part>, minOffset: nat, limit: nat, j: nat, k: nat)
    requires Packable(parts, minOffset, limit) && j < k < |parts|
    ensures Packing(parts, minOffset)[j].offset < Packing(parts, minOffset)[k].offset
  {
    RoundedSumRises(parts, j, k);
  }

  lemma RoundedSumRises(parts: seq<Part>, j: nat, k: nat)
    requires j < k <= |parts| && 0 < parts[j].size && parts[j].size + ALIGN <= WORD
    ensures RoundedSum(parts, j) < RoundedSum(parts, k)
  {
    RoundedSumStep(parts, j);
    RoundedSumGrows(parts, j + 1, k);
  }

  lemma PackingUnset(parts: seq<Part>, minOffset: nat)
    requires forall i | 0 <= i < |parts| :: parts[i].offset == 0
    ensures Entries(parts) == Unset(Packing(parts, minOffset))
  {
  }

  lemma {:induction false} AllZeros(list: seq<Entry>)
    requires Unplaced(list)
    ensures Zeros(list) == list && NonZeros(list) == []
    decreases |list|
  {
    if list == [] {
    } else {
      var n := |list| - 1;
      AllZeros(list[..n]);
      assert list[..n] + [list[n]] == list;
    }
  }

  lemma AssignFree(list: seq<Entry>, minOffset: nat, limit: nat)
    requires Snug(list, minOffset, limit) && 0 < limit <= WORD - ALIGN
    ensures Assign(Zeros(Unset(list)), Sort(NonZeros(Unset(list))), minOffset, limit - 1) == Placed(list)
  {
    AllZeros(Unset(list));
    AssignInOrder(list, 0, minOffset, limit);
    assert Unset(list)[0..] == Unset(list) && list[..0] == [];
  }

  lemma SettlingPacks(parts: seq<Part>, minOffset: nat, limit: nat)
    requires Packable(parts, minOffset, limit)
    ensures Settling(parts, minOffset, limit - 1) == Placed(Packing(parts, minOffset))
  {
    PackingSnug(parts, minOffset, limit);
    AssignFree(Packing(parts, minOffset), minOffset, limit);
    PackingUnset(parts, minOffset);
  }

  /** The table with its entries in order, each at the rounded end of the one before. */
  ghost predicate InOrder(parts: seq<Part>, after: seq<Part>, minOffset: nat) {
    && |after| == |parts|
    && forall k | 0 <= k < |parts| :: after[k] == parts[k].(offset := minOffset + RoundedSum(parts, k))
  }

  /** The table with its entries one behind the other. */
  ghost predicate LaidOut(parts: seq<Part>, after: seq<Part>, minOffset: nat) {
    |after| == |parts| && forall k | 0 <= k < |parts| :: after[k] == parts[k].(offset := minOffset + SizeSum(parts, k))
  }

  lemma PackingInOrder(parts: seq<Part>, minOffset: nat)
    ensures InOrder(parts, WithOffsets(parts, Packing(parts, minOffset)), minOffset)
  {
    var list := Packing(parts, minOffset);
    forall k | 0 <= k < |parts| ensures WithOffsets(parts, list)[k].offset == list[k].offset {
      assert list[k].id == k;
      WithOffsetsAt(parts, list, k);
    }
  }

  lemma InOrderLaidOut(parts: seq<Part>, after: seq<Part>, minOffset: nat)
    requires InOrder(parts, after, minOffset)
    requires forall i | 0 <= i < |parts| - 1 :: parts[i].size + ALIGN <= WORD && parts[i].size % ALIGN == 0
    ensures LaidOut(parts, after, minOffset)
  {
    forall k | 0 <= k < |parts| ensures RoundedSum(parts, k) == SizeSum(parts, k) {
      RoundedIsExact(parts, k);
    }
  }

  /** Settling a table without offsets puts its entries one behind the other, in table order. */
  lemma SettlePacks(parts: seq<Part>, minOffset: nat, limit: nat)
    requires Packable(parts, minOffset, limit)
    ensures var v := Settle(parts, minOffset, limit - 1);
            v.Done? && v.err == Success && InOrder(parts, v.parts, minOffset)
  {
    SettlingPacks(parts, minOffset, limit);
    PackingInOrder(parts, minOffset);
  }

  /** No address of the space wraps. */
  lemma SpaceBounds(s: Space)
    requires Roomy(s) && s.total > 0 && (s.first * s.blockSize) % ALIGN == 0
    ensures s.MinOffset() == s.first * s.blockSize && s.MaxOffset() + 1 == (s.first + s.total) * s.blockSize
    ensures Bounds(s.MinOffset(), s.MaxOffset() + 1) && s.MaxOffset() + 1 < WORD
  {
    MulMonotone(s.blockSize, s.first, s.first + s.total);
    MulMonotone(s.blockSize, s.first + 1, s.first + s.total);
    MulMonotone(s.blockSize, 1, s.first);
    SumProduct(s.first, 1, s.blockSize);
  }

  lemma SharedPackable(parts: seq<Part>, r: Pass, s: Space)
    requires Roomy(s) && s.total > 0 && (s.first * s.blockSize) % ALIGN == 0 && Percentages(parts)
    requires |r.parts| == |parts| && Shared(parts, r, |parts|, s)
    ensures Packable(r.parts, s.MinOffset(), s.MaxOffset() + 1)
    ensures forall i | 0 <= i < |parts| - 1 :: r.parts[i].size + ALIGN <= WORD && r.parts[i].size % ALIGN == 0
  {
    SpaceBounds(s);
    MulMonotone(s.blockSize, r.total, s.total);
    SumProduct(s.first, s.total, s.blockSize);
    forall i | 0 <= i < |parts| ensures SizeSum(r.parts, i) + r.parts[i].size <= r.total * s.blockSize {
      SizeSumGrows(r.parts, i + 1, |parts|);
    }
    forall i | 0 <= i < |parts| ensures RoundedSum(r.parts, i) == SizeSum(r.parts, i) {
      RoundedIsExact(r.parts, i);
    }
  }

  lemma PercentageSettles(parts: seq<Part>, r: Pass, s: Space, minOffset: nat, maxOffset: nat)
    requires Roomy(s) && s.total >= 100 && (s.first * s.blockSize) % ALIGN == 0 && Percentages(parts)
    requires r == Resolve(parts, |parts|, s) && r.err == Success
    requires minOffset == s.MinOffset() && maxOffset == s.MaxOffset()
    ensures Shared(parts, r, |parts|, s)
    ensures var v := Settle(r.parts, minOffset, maxOffset);
            v.Done? && v.err == Success && LaidOut(r.parts, v.parts, minOffset)
  {
    PercentagesShared(parts, |parts|, s);
    SharedPackable(parts, r, s);
    SettlePacks(r.parts, minOffset, maxOffset + 1);
    InOrderLaidOut(r.parts, Settle(r.parts, minOffset, maxOffset).parts, minOffset);
  }

  lemma ValidatedSteps(parts: seq<Part>, s: Space, r: Pass)
    requires 0 < s.blockSize <= ALIGN && s.first > 0 && r == Resolve(parts, |parts|, s)
    ensures Validated(parts, s) ==
            if r.err != Success then Done(r.err, r.parts)
            else if r.total > s.total then Done(NoSpace, r.parts)
            else Settle(r.parts, s.MinOffset(), s.MaxOffset())
  {
  }

  /** A table of percentages either does not fit or is laid out one behind the other in table order: every share but
      the last is its percentage of the space rounded up to whole units, and together they fit. */
  lemma PercentageLayout(parts: seq<Part>, s: Space)
    requires Roomy(s) && s.total >= 100 && (s.first * s.blockSize) % ALIGN == 0 && Percentages(parts)
    ensures var r, v := Resolve(parts, |parts|, s), Validated(parts, s);
            && v.Done? && v.err == r.err
            && (v.err == Success ==> Shared(parts, r, |parts|, s) && LaidOut(r.parts, v.parts, s.MinOffset()))
  {
    var r := Resolve(parts, |parts|, s);
    ValidatedSteps(parts, s, r);
    if r.err == Success {
      PercentageSettles(parts, r, s, s.MinOffset(), s.MaxOffset());
    }
  }

  /** No entry that had an offset has moved, and none has got another size. */
  ghost predicate FixedStay(parts: seq<Part>, after: seq<Part>) {
    && |after| == |parts|
    && (forall i | 0 <= i < |parts| :: after[i] == parts[i].(offset := after[i].offset))
    && (forall i | 0 <= i < |parts| && parts[i].offset != 0 :: after[i] == parts[i])
  }

  lemma SettledSound(parts: seq<Part>, minOffset: nat, maxOffset: nat)
    requires Bounds(minOffset, maxOffset + 1)
    requires FixedOk(parts, minOffset, maxOffset + 1) && FreeOk(parts, minOffset, maxOffset + 1)
    ensures var v := Settle(parts, minOffset, maxOffset);
            v.Done? && (v.err == Success ==> Sound(v.parts, minOffset, maxOffset + 1) && FixedStay(parts, v.parts))
  {
    MixedTableSafe(parts, minOffset, maxOffset + 1);
    SettleKeeps(parts, minOffset, maxOffset);
  }

  lemma BoundsOf(s: Space, minOffset: nat, maxOffset: nat)
    requires Roomy(s) && s.total > 0 && (s.first * s.blockSize) % ALIGN == 0
    requires minOffset == s.MinOffset() && maxOffset == s.MaxOffset()
    ensures Bounds(minOffset, maxOffset + 1)
  {
    SpaceBounds(s);
  }

  lemma ValidatedBy(parts: seq<Part>, s: Space, r: Pass, minOffset: nat, maxOffset: nat)
    requires 0 < s.blockSize <= ALIGN && s.first > 0 && r == Resolve(parts, |parts|, s)
    requires minOffset == s.MinOffset() && maxOffset == s.MaxOffset() && Settle(r.parts, minOffset, maxOffset).Done?
    ensures Validated(parts, s).Done?
    ensures Validated(parts, s).err == Success ==>
              r.err == Success && Validated(parts, s) == Settle(r.parts, minOffset, maxOffset)
  {
    ValidatedSteps(parts, s, r);
  }

  lemma ResolvedSound(parts: seq<Part>, s: Space, r: Pass, minOffset: nat, maxOffset: nat)
    requires Roomy(s) && s.total > 0 && (s.first * s.blockSize) % ALIGN == 0
    requires r == Resolve(parts, |parts|, s) && minOffset == s.MinOffset() && maxOffset == s.MaxOffset()
    requires FixedOk(r.parts, minOffset, maxOffset + 1) && FreeOk(r.parts, minOffset, maxOffset + 1)
    ensures var v := Validated(parts, s);
            v.Done? && (v.err == Success ==> Sound(v.parts, minOffset, maxOffset + 1) && FixedStay(r.parts, v.parts))
  {
    BoundsOf(s, minOffset, maxOffset);
    SettledSound(r.parts, minOffset, maxOffset);
    ValidatedBy(parts, s, r, minOffset, maxOffset);
  }

  /** No two partitions overlap or leave the space, and none that was fixed has moved. */
  ghost predicate SoundAndFixed(r: Pass, v: Verdict, minOffset: nat, maxOffset: nat) {
    v.Done? && (v.err == Success ==> Sound(v.parts, minOffset, maxOffset + 1) && FixedStay(r.parts, v.parts))
  }

  /** The entries are sound as far as they are fixed, and can be placed as far as they are free. */
  ghost predicate MixedOk(parts: seq<Part>, minOffset: nat, maxOffset: nat) {
    FixedOk(parts, minOffset, maxOffset + 1) && FreeOk(parts, minOffset, maxOffset + 1)
  }

  /** A table with fixed and free entries, as its sizes come out of the first pass: validation ends, and if it
      succeeds no two partitions overlap or leave the space, and none that was fixed has moved. */
  lemma MixedTableValidated(parts: seq<Part>, s: Space)
    requires Roomy(s) && s.total > 0 && (s.first * s.blockSize) % ALIGN == 0
    ensures var r, lo, hi := Resolve(parts, |parts|, s), s.MinOffset(), s.MaxOffset();
            MixedOk(r.parts, lo, hi) ==> SoundAndFixed(r, Validated(parts, s), lo, hi)
  {
    var r, lo, hi := Resolve(parts, |parts|, s), s.MinOffset(), s.MaxOffset();
    if MixedOk(r.parts, lo, hi) {
      ResolvedSound(parts, s, r, lo, hi);
    }
  }

  /** The last entry of the sorted list, which the program asserts to end within the space, does. */
  lemma ClosingAssertion(parts: seq<Part>, minOffset: nat, limit: nat)
    requires Bounds(minOffset, limit) && FixedOk(parts, minOffset, limit) && FreeOk(parts, minOffset, limit)
    ensures var r := Settling(parts, minOffset, limit - 1);
            r.Placed? && r.list != [] ==>
              var last := r.list[|r.list| - 1];
              U64(last.offset + last.size - 1) <= limit - 1
  {
    var r := Settling(parts, minOffset, limit - 1);
    SettlingSafe(parts, minOffset, limit);
    if r.Placed? && r.list != [] {
      assert InPlace(r.list[|r.list| - 1], minOffset, limit);
    }
  }

  lemma PercentagesPackable(parts: seq<Part>, s: Space, r: Pass, minOffset: nat, maxOffset: nat)
    requires Roomy(s) && s.total >= 100 && (s.first * s.blockSize) % ALIGN == 0 && Percentages(parts)
    requires r == Resolve(parts, |parts|, s) && r.err == Success && minOffset == s.MinOffset()
    requires maxOffset == s.MaxOffset()
    ensures Packable(r.parts, minOffset, maxOffset + 1)
    ensures forall i | 0 <= i < |r.parts| - 1 :: r.parts[i].size % ALIGN == 0
  {
    PercentagesShared(parts, |parts|, s);
    SharedPackable(parts, r, s);
  }

  lemma ResolvedPercentages(parts: seq<Part>, s: Space, r: Pass, minOffset: nat, maxOffset: nat)
    requires Roomy(s) && s.total >= 100 && (s.first * s.blockSize) % ALIGN == 0 && Percentages(parts)
    requires r == Resolve(parts, |parts|, s) && minOffset == s.MinOffset() && maxOffset == s.MaxOffset()
    requires Validated(parts, s).Done? && Validated(parts, s).err == Success
    ensures Sound(Validated(parts, s).parts, minOffset, maxOffset + 1)
  {
    ValidatedSteps(parts, s, r);
    PercentagesPackable(parts, s, r, minOffset, maxOffset);
    BoundsOf(s, minOffset, maxOffset);
    PackableFree(r.parts, minOffset, maxOffset + 1);
    SettledSound(r.parts, minOffset, maxOffset);
  }

  /** A table of percentages that fits is sound. */
  lemma PercentagesSound(parts: seq<Part>, s: Space)
    requires Roomy(s) && s.total >= 100 && (s.first * s.blockSize) % ALIGN == 0 && Percentages(parts)
    ensures var v := Validated(parts, s);
            v.Done? && v.err == Success ==> Sound(v.parts, s.MinOffset(), s.MaxOffset() + 1)
  {
    var v := Validated(parts, s);
    if v.Done? && v.err == Success {
      ResolvedPercentages(parts, s, Resolve(parts, |parts|, s), s.MinOffset(), s.MaxOffset());
    }
  }

  lemma PackableFree(parts: seq<Part>, minOffset: nat, limit: nat)
    requires Packable(parts, minOffset, limit)
    requires forall i | 0 <= i < |parts| - 1 :: parts[i].size % ALIGN == 0
    ensures FixedOk(parts, minOffset, limit) && FreeOk(parts, minOffset, limit)
  {
  }
}
