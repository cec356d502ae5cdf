/** Where partitions without an offset go: the first gap behind a placed one that is large enough. */
module Placement {
  import opened PartInfos

  /** A table entry in a list that can be sorted: which one it is, and where it lies. */
  datatype Entry = Entry(id: nat, offset: nat, size: nat) {
    /** Its end, rounded up to where the next partition may start. */
    function End(): nat {
      AlignUp(U64(offset + size), ALIGN)
    }
  }

  // A stable sort by offset

  function Insert(list: seq<Entry>, x: Entry): (r: seq<Entry>)
    ensures |r| == |list| + 1
    decreases |list|
  {
    if list == [] then [x]
    else
      var n := |list| - 1;
      if list[n].offset > x.offset then Insert(list[..n], x) + [list[n]] else list + [x]
  }

  function Sort(list: seq<Entry>): (r: seq<Entry>)
    ensures |r| == |list|
    decreases |list|
  {
    if list == [] then [] else Insert(Sort(list[..|list| - 1]), list[|list| - 1])
  }

  // The search for a gap

  datatype Gap = At(end: nat) | NoGap

  /** The room behind the k-th placed entry, as the unsigned difference the program computes. */
  function RoomAfter(placed: seq<Entry>, k: nat, maxOffset: nat): nat
    requires k < |placed|
  {
    if k + 1 < |placed| then U64(placed[k + 1].offset - placed[k].End()) else U64(U64(maxOffset + 1) - placed[k].End())
  }

  function FindGap(placed: seq<Entry>, k: nat, size: nat, maxOffset: nat): Gap
    requires k < |placed|
    decreases |placed| - k
  {
    if RoomAfter(placed, k, maxOffset) >= size then At(placed[k].End())
    else if k + 1 < |placed| then FindGap(placed, k + 1, size, maxOffset)
    else NoGap
  }

  /** Where the next entry goes: to the very start if nothing is placed yet. */
  function NextPlace(placed: seq<Entry>, size: nat, minOffset: nat, maxOffset: nat): Gap {
    if placed == [] then At(minOffset) else FindGap(placed, 0, size, maxOffset)
  }

  /** x among the placed entries, before any at or past its offset. */
  function Slot(placed: seq<Entry>, x: Entry): (r: seq<Entry>)
    ensures |r| == |placed| + 1
    decreases |placed|
  {
    if placed == [] then [x]
    else
      var n := |placed| - 1;
      if placed[n].offset < x.offset then placed + [x] else Slot(placed[..n], x) + [placed[n]]
  }

  /** How the placing of a table ends. An entry placed at address 0 is placed again and again for ever. */
  datatype Outcome = Placed(list: seq<Entry>) | NoRoom(list: seq<Entry>) | Forever

  /** The entries in queue are placed one by one among those in placed. */
  function Assign(queue: seq<Entry>, placed: seq<Entry>, minOffset: nat, maxOffset: nat): (r: Outcome)
    ensures r.Placed? || r.NoRoom? ==> |r.list| == |queue| + |placed|
    decreases |queue|
  {
    if queue == [] then Placed(placed)
    else
      match NextPlace(placed, queue[0].size, minOffset, maxOffset)
      case NoGap => NoRoom(queue + placed)
      case At(end) =>
        if end == 0 then Forever
        else Assign(queue[1..], Slot(placed, queue[0].(offset := end)), minOffset, maxOffset)
  }

  // The sorted list is always the entries without an offset, in their old order, and then the placed ones

  ghost predicate Unplaced(list: seq<Entry>) {
    forall k | 0 <= k < |list| :: list[k].offset == 0
  }

  ghost predicate Ordered(list: seq<Entry>) {
    && (forall k | 0 <= k < |list| :: list[k].offset > 0)
    && (forall j, k | 0 <= j < k < |list| :: list[j].offset <= list[k].offset)
  }

  /** No entry lies past offset w. */
  ghost predicate UpTo(list: seq<Entry>, w: nat) {
    forall k | 0 <= k < |list| :: list[k].offset <= w
  }

  lemma {:induction false} InsertPlaced(zeros: seq<Entry>, list: seq<Entry>, x: Entry)
    requires Unplaced(zeros) && x.offset > 0
    ensures Insert(zeros + list, x) == zeros + Insert(list, x)
    decreases |list|
  {
    var l, n := zeros + list, |list| - 1;
    if list == [] {
      assert l == zeros;
    } else {
      assert l[|l| - 1] == list[n] && l[..|l| - 1] == zeros + list[..n];
      InsertPlaced(zeros, list[..n], x);
      assert zeros + (list + [x]) == l + [x];
      assert zeros + (Insert(list[..n], x) + [list[n]]) == zeros + Insert(list[..n], x) + [list[n]];
    }
  }

  lemma {:induction false} InsertZero(zeros: seq<Entry>, list: seq<Entry>, x: Entry)
    requires Unplaced(zeros) && Ordered(list) && x.offset == 0
    ensures Insert(zeros + list, x) == zeros + [x] + list
    decreases |list|
  {
    var l, n := zeros + list, |list| - 1;
    if list == [] {
      assert l == zeros;
    } else {
      assert l[|l| - 1] == list[n] && l[..|l| - 1] == zeros + list[..n];
      InsertZero(zeros, list[..n], x);
      assert zeros + [x] + list == zeros + [x] + list[..n] + [list[n]];
    }
  }

  lemma OrderedPush(list: seq<Entry>, x: Entry)
    requires Ordered(list) && x.offset > 0 && UpTo(list, x.offset)
    ensures Ordered(list + [x])
  {
  }

  lemma {:induction false} InsertOrdered(list: seq<Entry>, x: Entry, w: nat)
    requires Ordered(list) && x.offset > 0 && UpTo(list, w) && x.offset <= w
    ensures Ordered(Insert(list, x)) && UpTo(Insert(list, x), w)
    decreases |list|
  {
    if list == [] {
    } else {
      var n := |list| - 1;
      if list[n].offset > x.offset {
        InsertOrdered(list[..n], x, list[n].offset);
        OrderedPush(Insert(list[..n], x), list[n]);
      } else {
        OrderedPush(list, x);
      }
    }
  }

  function Zeros(list: seq<Entry>): (r: seq<Entry>)
    decreases |list|
  {
    if list == [] then []
    else
      var n := |list| - 1;
      Zeros(list[..n]) + (if list[n].offset == 0 then [list[n]] else [])
  }

  function NonZeros(list: seq<Entry>): (r: seq<Entry>)
    decreases |list|
  {
    if list == [] then []
    else
      var n := |list| - 1;
      NonZeros(list[..n]) + (if list[n].offset != 0 then [list[n]] else [])
  }

  lemma {:induction false} ZerosUnplaced(list: seq<Entry>)
    ensures Unplaced(Zeros(list))
    decreases |list|
  {
    if list == [] {
    } else {
      ZerosUnplaced(list[..|list| - 1]);
    }
  }

  lemma InsertKeepsOrder(list: seq<Entry>, x: Entry)
    requires Ordered(list) && x.offset > 0
    ensures Ordered(Insert(list, x))
  {
    var w := if list == [] || list[|list| - 1].offset <= x.offset then x.offset else list[|list| - 1].offset;
    InsertOrdered(list, x, w);
  }

  lemma ZerosPush(list: seq<Entry>, x: Entry)
    ensures Zeros(list + [x]) == if x.offset == 0 then Zeros(list) + [x] else Zeros(list)
    ensures NonZeros(list + [x]) == if x.offset == 0 then NonZeros(list) else NonZeros(list) + [x]
  {
    assert (list + [x])[..|list|] == list;
  }

  ghost predicate SplitBySort(list: seq<Entry>) {
    Sort(list) == Zeros(list) + Sort(NonZeros(list)) && Ordered(Sort(NonZeros(list)))
  }

  lemma SortSplitsStep(list: seq<Entry>, x: Entry)
    requires SplitBySort(list)
    ensures SplitBySort(list + [x])
  {
    SortPush(list, x);
    ZerosPush(list, x);
    ZerosUnplaced(list);
    var zeros, placed := Zeros(list), Sort(NonZeros(list));
    if x.offset == 0 {
      InsertZero(zeros, placed, x);
    } else {
      InsertPlaced(zeros, placed, x);
      InsertKeepsOrder(placed, x);
      SortPush(NonZeros(list), x);
    }
  }

  /** Sorting brings the entries without an offset to the front, in table order. */
  lemma {:induction false} SortSplits(list: seq<Entry>)
    ensures SplitBySort(list)
    decreases |list|
  {
    if list == [] {
    } else {
      var before, x := list[..|list| - 1], list[|list| - 1];
      assert before + [x] == list;
      SortSplits(before);
      SortSplitsStep(before, x);
    }
  }

  lemma {:induction false} SortZeros(x: Entry, zeros: seq<Entry>)
    requires x.offset > 0 && Unplaced(zeros)
    ensures Sort([x] + zeros) == zeros + [x]
    decreases |zeros|
  {
    if zeros == [] {
      assert [x] + zeros == [x];
      assert Sort([x][..0]) == [];
    } else {
      var l, n := [x] + zeros, |zeros| - 1;
      assert l[..|l| - 1] == [x] + zeros[..n];
      SortZeros(x, zeros[..n]);
      InsertZero(zeros[..n], [x], zeros[n]);
      assert zeros[..n] + [zeros[n]] == zeros;
    }
  }

  lemma SortAgainStep(x: Entry, zeros: seq<Entry>, before: seq<Entry>, p: Entry)
    requires x.offset > 0 && p.offset > 0 && Unplaced(zeros) && UpTo(before, p.offset)
    requires Sort([x] + zeros + before) == zeros + Slot(before, x)
    ensures Sort([x] + zeros + (before + [p])) == zeros + Slot(before + [p], x)
  {
    var l := [x] + zeros + before;
    assert [x] + zeros + (before + [p]) == l + [p];
    SortPush(l, p);
    InsertPlaced(zeros, Slot(before, x), p);
    SlotInsert(before, p, x);
  }

  /** Sorting again after the first entry has got its offset puts it in its slot. */
  lemma {:induction false} SortAgain(x: Entry, zeros: seq<Entry>, placed: seq<Entry>)
    requires x.offset > 0 && Unplaced(zeros) && Ordered(placed)
    ensures Sort([x] + zeros + placed) == zeros + Slot(placed, x)
    decreases |placed|
  {
    if placed == [] {
      SortZeros(x, zeros);
      assert [x] + zeros + placed == [x] + zeros;
    } else {
      var n := |placed| - 1;
      SortAgain(x, zeros, placed[..n]);
      SortAgainStep(x, zeros, placed[..n], placed[n]);
      assert placed[..n] + [placed[n]] == placed;
    }
  }

  lemma SlotInsert(before: seq<Entry>, p: Entry, x: Entry)
    requires x.offset > 0 && UpTo(before, p.offset)
    ensures Insert(Slot(before, x), p) == Slot(before + [p], x)
  {
    SlotPush(before, p, x);
    if p.offset < x.offset {
      SlotAtEnd(before, x);
      InsertPush(before, x, p);
      InsertAtEnd(before, p);
    } else {
      SlotUpTo(before, x, p.offset);
      InsertAtEnd(Slot(before, x), p);
    }
  }

  lemma SlotPush(list: seq<Entry>, p: Entry, x: Entry)
    ensures Slot(list + [p], x) == if p.offset < x.offset then list + [p] + [x] else Slot(list, x) + [p]
  {
    assert (list + [p])[..|list|] == list;
  }

  lemma InsertPush(list: seq<Entry>, y: Entry, x: Entry)
    ensures Insert(list + [y], x) == if y.offset > x.offset then Insert(list, x) + [y] else list + [y] + [x]
  {
    assert (list + [y])[..|list|] == list;
  }

  lemma SortPush(list: seq<Entry>, x: Entry)
    ensures Sort(list + [x]) == Insert(Sort(list), x)
  {
    assert (list + [x])[..|list|] == list;
  }

  lemma SlotAtEnd(list: seq<Entry>, x: Entry)
    requires forall k | 0 <= k < |list| :: list[k].offset < x.offset
    ensures Slot(list, x) == list + [x]
  {
  }

  lemma InsertAtEnd(list: seq<Entry>, x: Entry)
    requires UpTo(list, x.offset)
    ensures Insert(list, x) == list + [x]
  {
  }

  lemma {:induction false} SlotUpTo(list: seq<Entry>, x: Entry, w: nat)
    requires UpTo(list, w) && x.offset <= w
    ensures UpTo(Slot(list, x), w)
    decreases |list|
  {
    if list == [] {
    } else {
      SlotUpTo(list[..|list| - 1], x, w);
    }
  }
}
