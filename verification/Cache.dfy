/** The invariant of the write-back cache and the steps that keep it, on plain values. */
module Cache {
  import opened Bits
  import opened Bytes
  import opened Sectors
  import opened Buffers

  /** The state of one sector buffer. */
  datatype Slot = Slot(sector: nat, dirty: bool, bytes: Sector)

  /** A slot is empty, or its tag maps to it, its bytes are the logical sector, and when clean also the raw one. */
  ghost predicate SlotOk(slot: Slot, k: nat, bits: nat, medium: seq<Sector>, view: seq<Sector>)
    requires |view| == |medium|
  {
    if slot.sector == INVALID then !slot.dirty
    else
      && slot.sector < INVALID && Mask(slot.sector, bits) == k
      && (slot.sector < |medium| ==> view[slot.sector] == slot.bytes)
      && (!slot.dirty ==> slot.sector < |medium| && medium[slot.sector] == slot.bytes)
  }

  ghost predicate Resident(slots: seq<Slot>, s: nat) {
    exists k | 0 <= k < |slots| :: slots[k].sector == s
  }

  /** Every slot is in order, and sectors in no slot are logically what the medium holds. */
  ghost predicate Coherent(slots: seq<Slot>, bits: nat, medium: seq<Sector>, view: seq<Sector>) {
    && |view| == |medium| <= INVALID
    && (forall k | 0 <= k < |slots| :: SlotOk(slots[k], k, bits, medium, view))
    && (forall s | 0 <= s < |medium| :: Resident(slots, s) || medium[s] == view[s])
  }

  /** No buffer waits to be written to a sector the medium does not have. */
  ghost predicate InBounds(slots: seq<Slot>, n: nat) {
    forall k | 0 <= k < |slots| && slots[k].dirty :: slots[k].sector < n
  }

  /** What a raw write of the sectors in target may do to a medium when it fails. */
  ghost predicate Torn(before: seq<Sector>, after: seq<Sector>, s: nat, target: seq<Sector>, atomic: bool) {
    && |after| == |before|
    && (forall k | 0 <= k < |before| && !(s <= k < s + |target|) :: after[k] == before[k])
    && (atomic ==> forall k | 0 <= k < |before| && s <= k < s + |target| ::
            after[k] == before[k] || after[k] == target[k - s])
  }

  /** Only the n sectors from s on may differ. */
  ghost predicate SameOutside(before: seq<Sector>, after: seq<Sector>, s: nat, n: nat) {
    |after| == |before| && forall k | 0 <= k < |before| && !(s <= k < s + n) :: after[k] == before[k]
  }

  /** Every raw sector holds a value its logical sector has had since the last sync. */
  ghost predicate Recorded(medium: seq<Sector>, view: seq<Sector>, past: seq<set<Sector>>, atomic: bool) {
    && |medium| == |view| == |past|
    && (forall s | 0 <= s < |past| :: view[s] in past[s])
    && (atomic ==> forall s | 0 <= s < |past| :: medium[s] in past[s])
  }

  /** The record after the logical contents have become v. */
  ghost predicate PastPlus(past: seq<set<Sector>>, v: seq<Sector>, after: seq<set<Sector>>) {
    |after| == |past| == |v| && forall s | 0 <= s < |v| :: after[s] == past[s] + {v[s]}
  }

  ghost function Extended(past: seq<set<Sector>>, v: seq<Sector>): (after: seq<set<Sector>>)
    requires |past| == |v|
    ensures PastPlus(past, v, after)
  {
    seq(|v|, s requires 0 <= s < |v| => past[s] + {v[s]})
  }

  lemma ResidentElsewhere(slots: seq<Slot>, k: nat, slot: Slot, s: nat)
    requires k < |slots| && slots[k].sector != s && Resident(slots, s)
    ensures Resident(slots[k := slot], s)
  {
    var j :| 0 <= j < |slots| && slots[j].sector == s;
    assert slots[k := slot][j].sector == s;
  }

  /** A sector can only be in the slot its address masks to. */
  lemma OnlySlot(slots: seq<Slot>, bits: nat, medium: seq<Sector>, view: seq<Sector>, s: nat)
    requires Coherent(slots, bits, medium, view) && s < INVALID && Resident(slots, s)
    ensures Mask(s, bits) < |slots| && slots[Mask(s, bits)].sector == s
  {
    var j :| 0 <= j < |slots| && slots[j].sector == s;
    assert SlotOk(slots[j], j, bits, medium, view);
  }

  /** A raw write of a dirty slot, whether it succeeds or tears, leaves the logical contents as they were. */
  lemma FlushKeeps(slots: seq<Slot>, bits: nat, medium: seq<Sector>, view: seq<Sector>, k: nat,
                   after: seq<Sector>, ok: bool)
    requires Coherent(slots, bits, medium, view) && k < |slots| && slots[k].dirty
    requires ok ==> slots[k].sector < |medium| && after == medium[slots[k].sector := slots[k].bytes]
    requires !ok ==> Torn(medium, after, slots[k].sector, [slots[k].bytes], false)
    ensures Coherent(if ok then slots[k := slots[k].(dirty := false)] else slots, bits, after, view)
  {
    var t := slots[k].sector;
    var slots' := if ok then slots[k := slots[k].(dirty := false)] else slots;
    forall j | 0 <= j < |slots'| ensures SlotOk(slots'[j], j, bits, after, view) {
      assert SlotOk(slots[j], j, bits, medium, view);
      assert SlotOk(slots[k], k, bits, medium, view);
    }
    forall s | 0 <= s < |after| ensures Resident(slots', s) || after[s] == view[s] {
      if Resident(slots, s) {
        var j :| 0 <= j < |slots| && slots[j].sector == s;
        assert slots'[j].sector == s;
      } else {
        assert s != t;
      }
    }
  }

  /** Dropping a clean slot leaves the logical contents as they were. */
  lemma InvalidateKeeps(slots: seq<Slot>, bits: nat, medium: seq<Sector>, view: seq<Sector>, k: nat, bytes: Sector)
    requires Coherent(slots, bits, medium, view) && k < |slots| && !slots[k].dirty
    ensures Coherent(slots[k := Slot(INVALID, false, bytes)], bits, medium, view)
  {
    var slots' := slots[k := Slot(INVALID, false, bytes)];
    assert SlotOk(slots[k], k, bits, medium, view);
    forall s | 0 <= s < |medium| ensures Resident(slots', s) || medium[s] == view[s] {
      if s != slots[k].sector && Resident(slots, s) {
        ResidentElsewhere(slots, k, Slot(INVALID, false, bytes), s);
      }
    }
  }

  /** Giving a clean slot to sector s: reading the sector in keeps the view, storing new bytes updates it at s. */
  lemma ClaimKeeps(slots: seq<Slot>, bits: nat, medium: seq<Sector>, view: seq<Sector>, k: nat, slot: Slot)
    requires Coherent(slots, bits, medium, view) && k < |slots|
    requires slot.sector < INVALID && Mask(slot.sector, bits) == k
    requires slots[k].sector == slot.sector || !slots[k].dirty
    requires !slot.dirty ==> slot.sector < |medium| && medium[slot.sector] == view[slot.sector] == slot.bytes
    ensures Coherent(slots[k := slot], bits, medium,
                     if slot.sector < |view| then view[slot.sector := slot.bytes] else view)
  {
    var s := slot.sector;
    var slots', view' := slots[k := slot], if s < |view| then view[s := slot.bytes] else view;
    assert slots'[k].sector == s;
    assert SlotOk(slots[k], k, bits, medium, view);
    forall j | 0 <= j < |slots'| ensures SlotOk(slots'[j], j, bits, medium, view') {
      assert SlotOk(slots[j], j, bits, medium, view);
    }
    forall r | 0 <= r < |medium| ensures Resident(slots', r) || medium[r] == view'[r] {
      if r != s && r != slots[k].sector && Resident(slots, r) {
        ResidentElsewhere(slots, k, slot, r);
      }
    }
  }

  /** Reading sector s into a clean slot that held something else leaves the logical contents as they were. */
  lemma LoadKeeps(slots: seq<Slot>, bits: nat, medium: seq<Sector>, view: seq<Sector>, k: nat, s: nat)
    requires Coherent(slots, bits, medium, view) && k < |slots| && !slots[k].dirty && slots[k].sector != s
    requires s < |medium| && Mask(s, bits) == k
    ensures medium[s] == view[s]
    ensures Coherent(slots[k := Slot(s, false, medium[s])], bits, medium, view)
  {
    if Resident(slots, s) {
      OnlySlot(slots, bits, medium, view, s);
    }
    ClaimKeeps(slots, bits, medium, view, k, Slot(s, false, medium[s]));
    assert view[s := medium[s]] == view;
  }

  /** With every slot clean the medium is the logical contents, and no slot means the same. */
  lemma CleanMeansFlushed(slots: seq<Slot>, bits: nat, medium: seq<Sector>, view: seq<Sector>)
    requires Coherent(slots, bits, medium, view) && forall k | 0 <= k < |slots| :: !slots[k].dirty
    ensures medium == view
  {
    forall s | 0 <= s < |medium| ensures medium[s] == view[s] {
      if Resident(slots, s) {
        var k :| 0 <= k < |slots| && slots[k].sector == s;
        assert SlotOk(slots[k], k, bits, medium, view);
      }
    }
  }

  /** A flush writes a logical value to the medium, so what the medium holds stays on record. */
  lemma FlushRecorded(medium: seq<Sector>, view: seq<Sector>, past: seq<set<Sector>>, atomic: bool, s: nat,
                      target: Sector, after: seq<Sector>)
    requires Recorded(medium, view, past, atomic)
    requires s < |view| ==> target == view[s]
    requires (s < |medium| && after == medium[s := target]) || Torn(medium, after, s, [target], atomic)
    ensures Recorded(after, view, past, atomic)
  {
  }

  lemma PastSame(past: seq<set<Sector>>, v: seq<Sector>)
    requires |past| == |v| && forall s | 0 <= s < |v| :: v[s] in past[s]
    ensures PastPlus(past, v, past)
  {
  }

  /** Changing a sector not touched so far adds just its new value to the record. */
  lemma PastStep(past: seq<set<Sector>>, v: seq<Sector>, past1: seq<set<Sector>>, v1: seq<Sector>,
                 past2: seq<set<Sector>>, v2: seq<Sector>, s: nat)
    requires |v| == |v1| == |v2| && |past| == |v| && forall k | 0 <= k < |v| :: v[k] in past[k]
    requires PastPlus(past, v1, past1) && PastPlus(past1, v2, past2)
    requires forall k | 0 <= k < |v| && k != s :: v2[k] == v1[k]
    requires s < |v| ==> v1[s] == v[s]
    ensures PastPlus(past, v2, past2)
  {
  }

  /** The record right after a sync: just the values the sectors have now. */
  ghost function Fresh(v: seq<Sector>): (past: seq<set<Sector>>)
    ensures |past| == |v| && forall s | 0 <= s < |v| :: past[s] == {v[s]}
  {
    seq(|v|, s requires 0 <= s < |v| => {v[s]})
  }

  /** The buffers of n sectors from s on, wherever they are held, cleared and clean. */
  ghost function Cleared(slots: seq<Slot>, s: nat, n: nat, ss: nat): (c: seq<Slot>)
    ensures |c| == |slots|
    ensures forall k | 0 <= k < |slots| ::
              c[k] == if s <= slots[k].sector < s + n then Slot(slots[k].sector, false, Zeros(ss)) else slots[k]
  {
    seq(|slots|, k requires 0 <= k < |slots| =>
      if s <= slots[k].sector < s + n then Slot(slots[k].sector, false, Zeros(ss)) else slots[k])
  }

  lemma ClearedStep(slots: seq<Slot>, bits: nat, medium: seq<Sector>, view: seq<Sector>, s: nat, n: nat, ss: nat)
    requires Coherent(slots, bits, medium, view) && |slots| == Pow2(bits) && s + n < INVALID
    ensures var k := Mask(s + n, bits);
            Cleared(slots, s, n + 1, ss) ==
            if slots[k].sector == s + n then Cleared(slots, s, n, ss)[k := Slot(s + n, false, Zeros(ss))]
            else Cleared(slots, s, n, ss)
  {
    forall j | 0 <= j < |slots| && slots[j].sector == s + n ensures j == Mask(s + n, bits) {
      assert SlotOk(slots[j], j, bits, medium, view);
    }
  }

  /** Erasing raw sectors and clearing their buffers makes them zero in the logical contents. */
  lemma EraseKeeps(slots: seq<Slot>, bits: nat, medium: seq<Sector>, view: seq<Sector>, s: nat, n: nat, ss: nat)
    requires Coherent(slots, bits, medium, view) && s + n <= |medium|
    ensures Coherent(Cleared(slots, s, n, ss), bits, Replace(medium, s, Blank(n, ss)), Replace(view, s, Blank(n, ss)))
  {
    var slots' := Cleared(slots, s, n, ss);
    var medium', view' := Replace(medium, s, Blank(n, ss)), Replace(view, s, Blank(n, ss));
    forall k | 0 <= k < |slots'| ensures SlotOk(slots'[k], k, bits, medium', view') {
      assert SlotOk(slots[k], k, bits, medium, view);
    }
    forall r | 0 <= r < |medium'| ensures Resident(slots', r) || medium'[r] == view'[r] {
      if Resident(slots, r) {
        var k :| 0 <= k < |slots| && slots[k].sector == r;
        assert slots'[k].sector == r;
      }
    }
  }

  /** After an erase that failed half way, the buffers and the raw sectors still describe one disk exactly when every
      sector that is buffered and clean was left alone. */
  lemma TornErase(slots: seq<Slot>, bits: nat, medium: seq<Sector>, view: seq<Sector>, after: seq<Sector>)
    requires Coherent(slots, bits, medium, view) && |after| == |medium|
    ensures (exists v :: Coherent(slots, bits, after, v)) <==>
            (forall k | 0 <= k < |slots| && slots[k].sector != INVALID && !slots[k].dirty ::
               after[slots[k].sector] == medium[slots[k].sector])
  {
    forall k | 0 <= k < |slots| ensures SlotOk(slots[k], k, bits, medium, view) {
    }
    if forall k | 0 <= k < |slots| && slots[k].sector != INVALID && !slots[k].dirty ::
         after[slots[k].sector] == medium[slots[k].sector] {
      var v := seq(|after|, s requires 0 <= s < |after| => if Resident(slots, s) then view[s] else after[s]);
      forall k | 0 <= k < |slots| ensures SlotOk(slots[k], k, bits, after, v) {
        if slots[k].sector < |after| {
          assert Resident(slots, slots[k].sector);
        }
      }
      assert Coherent(slots, bits, after, v);
    }
  }

  /** How many of the first m slots are dirty although their sector is on the medium of n sectors. */
  ghost function Stuck(slots: seq<Slot>, m: nat, n: nat): nat
    requires m <= |slots|
  {
    if m == 0 then 0 else Stuck(slots, m - 1, n) + if slots[m - 1].dirty && slots[m - 1].sector < n then 1 else 0
  }

  /** A pass of write-backs over the first m buffers only makes buffers clean, and leaves no more of them dirty than
      there were faults, except for those that are out of bounds. */
  ghost predicate SlotsFlushed(before: seq<Slot>, after: seq<Slot>, m: nat, n: nat, faults: int) {
    && |after| == |before|
    && (forall k | 0 <= k < |before| ::
          after[k] == before[k].(dirty := after[k].dirty) && (after[k].dirty ==> before[k].dirty))
    && (forall k | m <= k < |before| :: after[k].dirty == before[k].dirty)
    && (m <= |after| ==> Stuck(after, m, n) <= faults)
  }

  ghost predicate AllClean(slots: seq<Slot>, m: nat) {
    forall k | 0 <= k < |slots| && k < m :: !slots[k].dirty
  }

  lemma {:induction false} StuckSame(a: seq<Slot>, b: seq<Slot>, m: nat, n: nat)
    requires m <= |a| && m <= |b| && forall k | 0 <= k < m :: a[k] == b[k]
    ensures Stuck(a, m, n) == Stuck(b, m, n)
  {
    if m > 0 {
      StuckSame(a, b, m - 1, n);
    }
  }

  lemma {:induction false} NoneStuck(slots: seq<Slot>, m: nat, n: nat)
    requires m <= |slots| && Stuck(slots, m, n) == 0
    ensures forall k | 0 <= k < m && slots[k].dirty :: slots[k].sector >= n
  {
    if m > 0 {
      NoneStuck(slots, m - 1, n);
    }
  }

  lemma FlushedStep(before: seq<Slot>, after: seq<Slot>, m: nat, n: nat, faults: nat, faults': nat, slot: Slot)
    requires SlotsFlushed(before, after, m, n, faults) && m < |before| && faults <= faults'
    requires slot == after[m].(dirty := slot.dirty) && (slot.dirty ==> after[m].dirty)
    requires slot.dirty && slot.sector < n ==> faults < faults'
    ensures SlotsFlushed(before, after[m := slot], m + 1, n, faults')
    ensures AllClean(after[m := slot], m + 1) <==> AllClean(after, m) && !slot.dirty
  {
    StuckSame(after, after[m := slot], m, n);
    assert AllClean(after[m := slot], m + 1) ==> !after[m := slot][m].dirty;
    if AllClean(after[m := slot], m + 1) {
      forall k | 0 <= k < |after| && k < m ensures !after[k].dirty {
        assert !after[m := slot][k].dirty;
      }
    }
  }

  /** A pass of write-backs can only clean every buffer if none is out of bounds, and without faults then does. */
  lemma FlushOutcome(before: seq<Slot>, after: seq<Slot>, bits: nat, medium0: seq<Sector>, medium: seq<Sector>,
                     view: seq<Sector>, faults: nat)
    requires Coherent(before, bits, medium0, view) && Coherent(after, bits, medium, view)
    requires SlotsFlushed(before, after, |after|, |medium|, faults)
    ensures AllClean(after, |after|) ==> InBounds(before, |medium|)
    ensures InBounds(before, |medium|) && faults == 0 ==> AllClean(after, |after|)
  {
    forall k | 0 <= k < |after|
      ensures SlotOk(after[k], k, bits, medium, view) && SlotOk(before[k], k, bits, medium0, view) {
    }
    if faults == 0 {
      NoneStuck(after, |after|, |medium|);
    }
  }
}
