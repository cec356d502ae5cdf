/** What the placing of partitions guarantees, and where it goes wrong. */
module PlacementSafety {
  import opened PartInfos
  import opened Placement

  /** Entries lie one after another from minOffset on, aligned, none empty, and the last ends by limit; tightly so if
      that holds even after rounding its end up. */
  ghost predicate Spaced(list: seq<Entry>, minOffset: nat, limit: nat, tight: bool) {
    && (forall k | 0 <= k < |list| :: InPlace(list[k], minOffset, limit))
    && (forall k | 0 <= k < |list| - 1 :: Behind(list[k], list[k + 1]))
    && (tight && list != [] ==> list[|list| - 1].End() <= limit)
  }

  ghost predicate InPlace(e: Entry, minOffset: nat, limit: nat) {
    e.offset % ALIGN == 0 && e.offset >= minOffset && e.size > 0 && e.offset + e.size <= limit
  }

  ghost predicate Behind(e: Entry, f: Entry) {
    e.End() <= f.offset
  }

  /** Bounds under which no offset wraps. */
  ghost predicate Bounds(minOffset: nat, limit: nat) {
    0 < minOffset < limit && minOffset % ALIGN == 0 && limit + 2 * ALIGN <= WORD
  }

  lemma EndFacts(e: Entry)
    requires e.offset + e.size + ALIGN <= WORD
    ensures e.End() % ALIGN == 0 && e.offset + e.size <= e.End() < e.offset + e.size + ALIGN
    ensures (e.offset + e.size) % ALIGN == 0 ==> e.End() == e.offset + e.size
  {
    AlignUpFacts(e.offset + e.size, ALIGN);
    if (e.offset + e.size) % ALIGN == 0 {
      MultiplesApart(e.offset + e.size, e.End());
    }
  }

  /** Two multiples of the alignment that differ lie at least the alignment apart. */
  lemma MultiplesApart(a: nat, b: nat)
    requires a % ALIGN == 0 && b % ALIGN == 0
    ensures a < b ==> a + ALIGN <= b
    ensures b < a ==> b + ALIGN <= a
  {
  }

  /** Rounding an end up does not pass an aligned offset behind it. */
  lemma RoundingStops(e: Entry, w: nat)
    requires e.offset + e.size <= w && w % ALIGN == 0 && e.offset + e.size + ALIGN <= WORD
    ensures e.End() <= w
  {
    EndFacts(e);
    MultiplesApart(w, e.End());
  }

  // First fit

  /** Size bytes fit behind the k-th entry. */
  ghost predicate FitsAfter(placed: seq<Entry>, k: nat, size: nat, limit: nat)
    requires k < |placed|
  {
    placed[k].End() + size <= if k + 1 < |placed| then placed[k + 1].offset else limit
  }

  lemma RoomIsRoom(placed: seq<Entry>, k: nat, size: nat, minOffset: nat, limit: nat)
    requires Bounds(minOffset, limit) && Spaced(placed, minOffset, limit, true) && k < |placed|
    ensures RoomAfter(placed, k, limit - 1) >= size <==> FitsAfter(placed, k, size, limit)
  {
    if k + 1 < |placed| {
      assert Behind(placed[k], placed[k + 1]);
      assert InPlace(placed[k + 1], minOffset, limit);
    }
  }

  /** The search takes the first gap that is large enough, and gives up only when none is. */
  lemma {:induction false} FirstFit(placed: seq<Entry>, k: nat, size: nat, minOffset: nat, limit: nat) returns (j: nat)
    requires Bounds(minOffset, limit) && Spaced(placed, minOffset, limit, true) && k < |placed|
    ensures k <= j <= |placed|
    ensures forall i | k <= i < j :: !FitsAfter(placed, i, size, limit)
    ensures j < |placed| ==> FitsAfter(placed, j, size, limit)
    ensures FindGap(placed, k, size, limit - 1) == if j < |placed| then At(placed[j].End()) else NoGap
    decreases |placed| - k
  {
    RoomIsRoom(placed, k, size, minOffset, limit);
    if FitsAfter(placed, k, size, limit) {
      j := k;
    } else if k + 1 < |placed| {
      j := FirstFit(placed, k + 1, size, minOffset, limit);
    } else {
      j := |placed|;
    }
  }

  // A new entry in its gap

  lemma {:induction false} SlotAfter(placed: seq<Entry>, x: Entry, j: nat)
    requires j <= |placed|
    requires forall k | 0 <= k < j :: placed[k].offset < x.offset
    requires forall k | j <= k < |placed| :: placed[k].offset >= x.offset
    ensures Slot(placed, x) == placed[..j] + [x] + placed[j..]
    decreases |placed|
  {
    if placed == [] {
    } else {
      var n := |placed| - 1;
      if j == |placed| {
        assert placed[..j] + [x] + placed[j..] == placed + [x];
      } else {
        SlotAfter(placed[..n], x, j);
        assert placed[..n][..j] == placed[..j] && placed[..n][j..] + [placed[n]] == placed[j..];
      }
    }
  }

  /** Later entries of a spaced list have larger offsets. */
  lemma {:induction false} SpacedOrder(list: seq<Entry>, minOffset: nat, limit: nat, tight: bool, j: nat, k: nat)
    requires Bounds(minOffset, limit) && Spaced(list, minOffset, limit, tight) && j < k < |list|
    ensures list[j].End() <= list[k].offset && list[j].offset < list[k].offset
    decreases k - j
  {
    assert InPlace(list[j], minOffset, limit) && Behind(list[j], list[j + 1]);
    EndFacts(list[j]);
    if j + 1 < k {
      SpacedOrder(list, minOffset, limit, tight, j + 1, k);
    }
  }

  lemma SpacedInsert(placed: seq<Entry>, x: Entry, j: nat, minOffset: nat, limit: nat)
    requires Bounds(minOffset, limit) && Spaced(placed, minOffset, limit, true) && 0 < j <= |placed|
    requires x.offset == placed[j - 1].End() && x.size > 0
    requires x.offset + x.size <= if j < |placed| then placed[j].offset else limit
    ensures Spaced(placed[..j] + [x] + placed[j..], minOffset, limit, x.size % ALIGN == 0)
  {
    assert InPlace(placed[j - 1], minOffset, limit);
    EndFacts(placed[j - 1]);
    if j < |placed| {
      assert InPlace(placed[j], minOffset, limit);
      RoundingStops(x, placed[j].offset);
    }
    EndFacts(x);
    if x.size % ALIGN == 0 {
      SumAligned(x.offset, x.size);
    }
    SpacedAround(placed, x, j, minOffset, limit, x.size % ALIGN == 0);
  }

  lemma SpacedAround(placed: seq<Entry>, x: Entry, j: nat, minOffset: nat, limit: nat, tight: bool)
    requires Spaced(placed, minOffset, limit, true) && 0 < j <= |placed|
    requires InPlace(x, minOffset, limit) && Behind(placed[j - 1], x)
    requires if j < |placed| then Behind(x, placed[j]) else tight ==> x.End() <= limit
    ensures Spaced(placed[..j] + [x] + placed[j..], minOffset, limit, tight)
  {
    var r := placed[..j] + [x] + placed[j..];
    forall k | 0 <= k < |r| - 1 ensures Behind(r[k], r[k + 1]) {
      if k < j - 1 {
        assert Behind(placed[k], placed[k + 1]);
      } else if k > j {
        assert Behind(placed[k - 1], placed[k]);
      }
    }
  }

  lemma SumAligned(a: nat, b: nat)
    requires a % ALIGN == 0 && b % ALIGN == 0
    ensures (a + b) % ALIGN == 0
  {
  }

  /** Placing one entry keeps the list spaced, and tightly so if its size is aligned. */
  lemma PlaceOne(placed: seq<Entry>, x: Entry, end: nat, minOffset: nat, limit: nat)
    requires Bounds(minOffset, limit) && Spaced(placed, minOffset, limit, true)
    requires x.size > 0 && minOffset + x.size <= limit
    requires NextPlace(placed, x.size, minOffset, limit - 1) == At(end)
    ensures end > 0 && Spaced(Slot(placed, x.(offset := end)), minOffset, limit, x.size % ALIGN == 0)
  {
    var y := x.(offset := end);
    if placed == [] {
      EndFacts(y);
      assert Slot(placed, y) == [y];
    } else {
      var j := FirstFit(placed, 0, x.size, minOffset, limit);
      assert InPlace(placed[j], minOffset, limit);
      EndFacts(placed[j]);
      BeforeAndAfter(placed, y, j + 1, minOffset, limit);
      SlotAfter(placed, y, j + 1);
      SpacedInsert(placed, y, j + 1, minOffset, limit);
    }
  }

  lemma BeforeAndAfter(placed: seq<Entry>, y: Entry, j: nat, minOffset: nat, limit: nat)
    requires Bounds(minOffset, limit) && Spaced(placed, minOffset, limit, true) && 0 < j <= |placed|
    requires y.offset == placed[j - 1].End()
    ensures forall k | 0 <= k < j :: placed[k].offset < y.offset
    ensures forall k | j <= k < |placed| :: placed[k].offset >= y.offset
  {
    assert InPlace(placed[j - 1], minOffset, limit);
    EndFacts(placed[j - 1]);
    forall k | 0 <= k < j - 1 ensures placed[k].offset < y.offset {
      SpacedOrder(placed, minOffset, limit, true, k, j - 1);
    }
    forall k | j <= k < |placed| ensures placed[k].offset >= y.offset {
      SpacedOrder(placed, minOffset, limit, true, j - 1, k);
    }
  }

  /** Entries waiting for a place: none empty or too large, and all sizes aligned but perhaps the last. */
  ghost predicate Waiting(queue: seq<Entry>, minOffset: nat, limit: nat) {
    && (forall k | 0 <= k < |queue| :: queue[k].size > 0 && minOffset + queue[k].size <= limit)
    && (forall k | 0 <= k < |queue| - 1 :: queue[k].size % ALIGN == 0)
  }

  /** Placing never loops, and what it places never overlaps or leaves the space. */
  lemma {:induction false} AssignSafe(queue: seq<Entry>, placed: seq<Entry>, minOffset: nat, limit: nat)
    requires Bounds(minOffset, limit) && Spaced(placed, minOffset, limit, true) && Waiting(queue, minOffset, limit)
    ensures var r := Assign(queue, placed, minOffset, limit - 1);
            r != Forever && (r.Placed? ==> Spaced(r.list, minOffset, limit, false))
    decreases |queue|
  {
    if queue == [] {
    } else {
      var next := NextPlace(placed, queue[0].size, minOffset, limit - 1);
      if next.At? {
        PlaceOne(placed, queue[0], next.end, minOffset, limit);
        var placed' := Slot(placed, queue[0].(offset := next.end));
        if |queue| == 1 {
          assert queue[1..] == [];
        } else {
          AssignSafe(queue[1..], placed', minOffset, limit);
        }
      }
    }
  }

  /** Any two entries of a spaced list are disjoint. */
  lemma SpacedDisjoint(list: seq<Entry>, minOffset: nat, limit: nat, j: nat, k: nat)
    requires Bounds(minOffset, limit) && Spaced(list, minOffset, limit, false) && j < k < |list|
    ensures list[j].offset + list[j].size <= list[k].offset
  {
    assert InPlace(list[j], minOffset, limit);
    EndFacts(list[j]);
    SpacedOrder(list, minOffset, limit, false, j, k);
  }

  // Which entries come out

  /** e is in the list, and with its offset if it had one. */
  ghost predicate Kept(list: seq<Entry>, e: Entry) {
    exists j | 0 <= j < |list| ::
      list[j].id == e.id && list[j].size == e.size && (e.offset == 0 || list[j].offset == e.offset)
  }

  ghost predicate AllKept(before: seq<Entry>, after: seq<Entry>) {
    && |after| == |before| && forall k | 0 <= k < |before| :: Kept(after, before[k])
  }

  ghost predicate Distinct(list: seq<Entry>) {
    forall j, k | 0 <= j < k < |list| :: list[j].id != list[k].id
  }

  lemma KeptAt(list: seq<Entry>, j: nat, e: Entry)
    requires j < |list| && list[j].id == e.id && list[j].size == e.size && (e.offset == 0 || list[j].offset == e.offset)
    ensures Kept(list, e)
  {
  }

  /** Slot puts x in somewhere and leaves the rest as it was. */
  lemma {:induction false} SlotSomewhere(placed: seq<Entry>, x: Entry) returns (j: nat)
    ensures j <= |placed| && Slot(placed, x) == placed[..j] + [x] + placed[j..]
    decreases |placed|
  {
    j := |placed|;
    if placed == [] {
    } else {
      var n := |placed| - 1;
      if placed[n].offset < x.offset {
        assert placed[..j] + [x] + placed[j..] == placed + [x];
      } else {
        j := SlotSomewhere(placed[..n], x);
        assert placed[..n][..j] == placed[..j] && placed[..n][j..] + [placed[n]] == placed[j..];
      }
    }
  }

  lemma {:induction false} InsertSomewhere(list: seq<Entry>, x: Entry) returns (j: nat)
    ensures j <= |list| && Insert(list, x) == list[..j] + [x] + list[j..]
    decreases |list|
  {
    j := |list|;
    if list == [] {
    } else {
      var n := |list| - 1;
      if list[n].offset > x.offset {
        j := InsertSomewhere(list[..n], x);
        assert list[..n][..j] == list[..j] && list[..n][j..] + [list[n]] == list[j..];
      } else {
        assert list[..j] + [x] + list[j..] == list + [x];
      }
    }
  }

  lemma KeptAround(list: seq<Entry>, j: nat, x: Entry)
    requires j <= |list|
    ensures forall e | Kept(list, e) :: Kept(list[..j] + [x] + list[j..], e)
    ensures Kept(list[..j] + [x] + list[j..], x)
  {
    var r := list[..j] + [x] + list[j..];
    forall e | Kept(list, e) ensures Kept(r, e) {
      var k :| 0 <= k < |list| && list[k].id == e.id && list[k].size == e.size &&
        (e.offset == 0 || list[k].offset == e.offset);
      KeptAt(r, if k < j then k else k + 1, e);
    }
    KeptAt(r, j, x);
  }

  lemma {:induction false} SortKeeps(list: seq<Entry>)
    ensures AllKept(list, Sort(list))
    decreases |list|
  {
    if list == [] {
    } else {
      var n := |list| - 1;
      var sorted := Sort(list[..n]);
      SortKeeps(list[..n]);
      var j := InsertSomewhere(sorted, list[n]);
      KeptAround(sorted, j, list[n]);
      forall k | 0 <= k < |list| ensures Kept(Sort(list), list[k]) {
        if k < n {
          assert Kept(sorted, list[..n][k]);
        }
      }
    }
  }

  /** Whatever the sizes, placing keeps every entry, its size, and its offset if it had one. */
  lemma {:induction false} AssignKeeps(queue: seq<Entry>, placed: seq<Entry>, minOffset: nat, maxOffset: nat)
    requires Unplaced(queue)
    ensures var r := Assign(queue, placed, minOffset, maxOffset);
            r.Placed? || r.NoRoom? ==> AllKept(queue + placed, r.list)
    decreases |queue|
  {
    var r, all := Assign(queue, placed, minOffset, maxOffset), queue + placed;
    if queue == [] {
      forall k | 0 <= k < |all| ensures Kept(placed, all[k]) {
        KeptAt(placed, k, all[k]);
      }
    } else {
      var next := NextPlace(placed, queue[0].size, minOffset, maxOffset);
      if next.NoGap? {
        forall k | 0 <= k < |all| ensures Kept(r.list, all[k]) {
          KeptAt(r.list, k, all[k]);
        }
      } else if next.end != 0 && (r.Placed? || r.NoRoom?) {
        var x := queue[0].(offset := next.end);
        var j := SlotSomewhere(placed, x);
        var all' := queue[1..] + Slot(placed, x);
        AssignKeeps(queue[1..], Slot(placed, x), minOffset, maxOffset);
        var m := |queue| - 1;
        forall k | 0 <= k < |all| ensures Kept(r.list, all[k]) {
          if k == 0 {
            assert all'[m + j] == x;
            assert Kept(r.list, all'[m + j]);
          } else if k < |queue| {
            assert all'[k - 1] == all[k];
            assert Kept(r.list, all'[k - 1]);
          } else {
            var i := k - |queue|;
            var i' := m + (if i < j then i else i + 1);
            assert all'[i'] == all[k];
            assert Kept(r.list, all'[i']);
          }
        }
      }
    }
  }

  // No entry comes out twice

  ghost predicate Absent(list: seq<Entry>, id: nat) {
    forall k | 0 <= k < |list| :: list[k].id != id
  }

  lemma DistinctAround(list: seq<Entry>, j: nat, x: Entry)
    requires j <= |list| && Distinct(list) && Absent(list, x.id)
    ensures Distinct(list[..j] + [x] + list[j..])
    ensures forall id | Absent(list, id) && id != x.id :: Absent(list[..j] + [x] + list[j..], id)
  {
  }

  lemma {:induction false} SortDistinct(list: seq<Entry>)
    requires Distinct(list)
    ensures Distinct(Sort(list)) && forall id | Absent(list, id) :: Absent(Sort(list), id)
    decreases |list|
  {
    if list == [] {
    } else {
      var n := |list| - 1;
      var sorted, x := Sort(list[..n]), list[n];
      SortDistinct(list[..n]);
      assert Absent(list[..n], x.id);
      var j := InsertSomewhere(sorted, x);
      DistinctAround(sorted, j, x);
      forall id | Absent(list, id) ensures Absent(Sort(list), id) {
        assert x.id != id && Absent(list[..n], id);
      }
    }
  }

  lemma {:induction false} AssignDistinct(queue: seq<Entry>, placed: seq<Entry>, minOffset: nat, maxOffset: nat)
    requires Distinct(queue + placed)
    ensures var r := Assign(queue, placed, minOffset, maxOffset);
            r.Placed? || r.NoRoom? ==> Distinct(r.list)
    decreases |queue|
  {
    if queue == [] {
      assert queue + placed == placed;
    } else {
      var next := NextPlace(placed, queue[0].size, minOffset, maxOffset);
      if next.At? && next.end != 0 {
        var x := queue[0].(offset := next.end);
        var j := SlotSomewhere(placed, x);
        MoveDistinct(queue, placed, x, j);
        AssignDistinct(queue[1..], Slot(placed, x), minOffset, maxOffset);
      }
    }
  }

  lemma MoveDistinct(queue: seq<Entry>, placed: seq<Entry>, x: Entry, j: nat)
    requires queue != [] && Distinct(queue + placed) && x.id == queue[0].id && j <= |placed|
    ensures Distinct(queue[1..] + (placed[..j] + [x] + placed[j..]))
  {
    var rest := queue[1..] + placed;
    assert forall k | 0 <= k < |rest| :: rest[k] == (queue + placed)[k + 1];
    assert Absent(rest, x.id) by {
      forall k | 0 <= k < |rest| ensures rest[k].id != x.id {
        assert (queue + placed)[0].id != (queue + placed)[k + 1].id;
      }
    }
    assert Distinct(rest);
    DistinctAround(rest, |queue| - 1 + j, x);
    assert rest[..|queue| - 1 + j] + [x] + rest[|queue| - 1 + j..] == queue[1..] + (placed[..j] + [x] + placed[j..]);
  }

  // A table without any offsets

  /** Each entry is followed at its rounded end by the next, and the last one ends by limit. */
  ghost predicate Snug(list: seq<Entry>, minOffset: nat, limit: nat) {
    && (list != [] ==> list[0].offset == minOffset)
    && (forall k | 0 <= k < |list| :: 0 < list[k].offset && 0 < list[k].size && list[k].offset + list[k].size <= limit)
    && (forall j, k | 0 <= j < k < |list| :: list[j].offset < list[k].offset)
    && (forall k | 0 <= k < |list| :: FollowedAtEnd(list, k))
  }

  ghost predicate FollowedAtEnd(list: seq<Entry>, k: nat)
    requires k < |list|
  {
    k + 1 < |list| ==> list[k].End() == list[k + 1].offset
  }

  function Unset(list: seq<Entry>): (r: seq<Entry>)
    ensures |r| == |list| && forall k | 0 <= k < |list| :: r[k] == list[k].(offset := 0)
  {
    seq(|list|, k requires 0 <= k < |list| => list[k].(offset := 0))
  }

  /** Among the first k entries there is no gap before the last. */
  lemma {:induction false} OnlyLastGap(list: seq<Entry>, k: nat, i: nat, minOffset: nat, limit: nat)
    requires Snug(list, minOffset, limit) && i < k < |list| && limit <= WORD - ALIGN
    ensures FindGap(list[..k], i, list[k].size, limit - 1) == At(list[k].offset)
    decreases k - i
  {
    assert FollowedAtEnd(list, i);
    if i + 1 < k {
      OnlyLastGap(list, k, i + 1, minOffset, limit);
    }
  }

  lemma SnugNext(list: seq<Entry>, k: nat, minOffset: nat, limit: nat)
    requires Snug(list, minOffset, limit) && k < |list| && limit <= WORD - ALIGN
    ensures NextPlace(list[..k], list[k].size, minOffset, limit - 1) == At(list[k].offset)
    ensures Slot(list[..k], list[k]) == list[..k + 1]
  {
    if k > 0 {
      OnlyLastGap(list, k, 0, minOffset, limit);
    }
    SlotAtEnd(list[..k], list[k]);
    assert list[..k] + [list[k]] == list[..k + 1];
  }

  /** Entries without offsets are placed one behind the other in table order, and there is always room. */
  lemma {:induction false} AssignInOrder(list: seq<Entry>, k: nat, minOffset: nat, limit: nat)
    requires Snug(list, minOffset, limit) && k <= |list| && 0 < limit <= WORD - ALIGN
    ensures Assign(Unset(list)[k..], list[..k], minOffset, limit - 1) == Placed(list)
    decreases |list| - k
  {
    if k == |list| {
      assert list[..k] == list;
    } else {
      SnugNext(list, k, minOffset, limit);
      AssignInOrder(list, k + 1, minOffset, limit);
      AssignCons(Unset(list)[k..], list[..k], list[k], minOffset, limit - 1);
    }
  }

  lemma AssignCons(queue: seq<Entry>, placed: seq<Entry>, x: Entry, minOffset: nat, maxOffset: nat)
    requires queue != [] && queue[0] == x.(offset := 0) && x.offset > 0
    requires NextPlace(placed, x.size, minOffset, maxOffset) == At(x.offset)
    ensures Assign(queue, placed, minOffset, maxOffset) == Assign(queue[1..], Slot(placed, x), minOffset, maxOffset)
  {
  }

  // Where the unsigned arithmetic goes wrong

  /** The room behind the last placed entry is taken exactly when the new entry fits there, or when that entry's
      rounded end is already past the limit, in which case the difference wraps. */
  lemma LastGapTaken(placed: seq<Entry>, size: nat, limit: nat)
    requires placed != [] && 0 < limit < WORD && size + ALIGN <= limit
    requires placed[|placed| - 1].End() < limit + ALIGN
    ensures var end := placed[|placed| - 1].End();
            RoomAfter(placed, |placed| - 1, limit - 1) >= size <==> end + size <= limit || end > limit
  {
  }
}
