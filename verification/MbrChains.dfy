/** Chains of extended partitions: when going through them ends. */
module MbrChains {
  import opened Bits
  import opened Sectors
  import opened MbrLayout
  import opened ScanSpec

  /** After n rounds of the scanner's loop, from record k of recs on, it is still looking for the next partition. */
  predicate StillLooking(v: seq<Sector>, recs: seq<Seen>, k: nat, n: nat)
    requires forall i | 0 <= i < |v| :: |v[i]| >= MBR_SIZE
    decreases n
  {
    n == 0 ||
    (k < |recs| &&
     if recs[k].start >= |v| then StillLooking(v, recs, k + 1, n - 1)
     else recs[k].osType == OS_EXTENDED && StillLooking(v, Records(v[recs[k].start], recs[k].start, 4), 0, n - 1))
  }

  /** Where going through all records ends, the search for the next partition does. */
  lemma {:induction false} SearchEnds(v: seq<Sector>, recs: seq<Seen>, k: nat, n: nat)
    requires Long(v) && Exhausts(v, recs, k, n)
    ensures !StillLooking(v, recs, k, n + 1)
    decreases n
  {
    if k < |recs| {
      if Descends(v, recs[k]) {
        SearchEnds(v, Records(v[recs[k].start], recs[k].start, 4), 0, n - 1);
      } else {
        SearchEnds(v, recs, k + 1, n - 1);
      }
    }
  }

  // How long the ways can be

  lemma {:induction false} ShallowMore(v: seq<Sector>, s: nat, d: nat, e: nat)
    requires Long(v) && s < |v| && Shallow(v, s, d) && d <= e
    ensures Shallow(v, s, e)
    decreases d
  {
    var recs := Records(v[s], s, 4);
    forall i | 0 <= i < |recs| && Descends(v, recs[i]) ensures e > 0 && Shallow(v, recs[i].start, e - 1) {
      ShallowMore(v, recs[i].start, d - 1, e - 1);
    }
  }

  /** Where going through records ends within n rounds, no way is longer than that. */
  lemma {:induction false} ExhaustsShallow(v: seq<Sector>, recs: seq<Seen>, k: nat, n: nat)
    requires Long(v) && Exhausts(v, recs, k, n)
    ensures forall i | k <= i < |recs| && Descends(v, recs[i]) :: n > 0 && Shallow(v, recs[i].start, n - 1)
    decreases n
  {
    if k < |recs| {
      ExhaustsShallow(v, recs, k + 1, n - 1);
      forall i | k <= i < |recs| && Descends(v, recs[i]) ensures Shallow(v, recs[i].start, n - 1) {
        if i == k {
          ExhaustsShallow(v, Records(v[recs[k].start], recs[k].start, 4), 0, n - 1);
        } else {
          ShallowMore(v, recs[i].start, n - 2, n - 1);
        }
      }
    }
  }

  /** The sectors from which no way is longer than d. */
  ghost function Level(v: seq<Sector>, d: nat): set<nat>
    requires Long(v)
  {
    set s: nat | s < |v| && Shallow(v, s, d)
  }

  ghost function Below(n: nat): (b: set<nat>)
    ensures |b| == n && forall s: nat :: s in b <==> s < n
  {
    if n == 0 then {} else Below(n - 1) + {n - 1}
  }

  lemma SubsetSize(a: set<nat>, b: set<nat>)
    requires a <= b
    ensures |a| <= |b| && (|a| == |b| ==> a == b)
  {
    assert b == a + (b - a);
  }

  lemma LevelGrows(v: seq<Sector>, d: nat)
    requires Long(v)
    ensures Level(v, d) <= Level(v, d + 1) <= Below(|v|)
  {
    forall s | s in Level(v, d) ensures s in Level(v, d + 1) {
      ShallowMore(v, s, d, d + 1);
    }
  }

  /** Once nothing is added, nothing ever is. */
  lemma LevelStays(v: seq<Sector>, d: nat)
    requires Long(v) && Level(v, d) == Level(v, d + 1)
    ensures Level(v, d + 1) == Level(v, d + 2)
  {
    LevelGrows(v, d + 1);
    var next := Level(v, d + 2);
    forall s | s in next ensures s in Level(v, d + 1) {
      var recs := Records(v[s], s, 4);
      forall i | 0 <= i < |recs| && Descends(v, recs[i]) ensures Shallow(v, recs[i].start, d) {
        assert recs[i].start in Level(v, d + 1);
      }
    }
  }

  /** Until then there is one more sector at each step. */
  lemma {:induction false} LevelSize(v: seq<Sector>, d: nat)
    requires Long(v)
    ensures |Level(v, d)| >= d || Level(v, d) == Level(v, d + 1)
  {
    if d > 0 {
      LevelSize(v, d - 1);
      if Level(v, d - 1) == Level(v, d) {
        LevelStays(v, d - 1);
      } else {
        LevelGrows(v, d - 1);
        SubsetSize(Level(v, d - 1), Level(v, d));
      }
    }
  }

  lemma LevelFull(v: seq<Sector>)
    requires Long(v)
    ensures Level(v, |v|) == Level(v, |v| + 1)
  {
    LevelSize(v, |v|);
    LevelGrows(v, |v|);
    SubsetSize(Level(v, |v|), Below(|v|));
    SubsetSize(Level(v, |v|), Level(v, |v| + 1));
    SubsetSize(Level(v, |v| + 1), Below(|v|));
  }

  lemma {:induction false} LevelMost(v: seq<Sector>, d: nat)
    requires Long(v) && d >= |v|
    ensures Level(v, d) == Level(v, |v|) && Level(v, d) == Level(v, d + 1)
    decreases d
  {
    if d == |v| {
      LevelFull(v);
    } else {
      LevelMost(v, d - 1);
      LevelStays(v, d - 1);
    }
  }

  /** Going through the records of a sector ends, whichever sectors can be read, exactly if no way through extended
      partitions is longer than the disk: one that is comes back to where it was. */
  lemma EndsExactly(v: seq<Sector>, s: nat)
    requires Long(v) && s < |v|
    ensures Ends(v, s) <==> Shallow(v, s, |v|)
  {
    if Ends(v, s) {
      var n: nat :| Exhausts(v, Records(v[s], s, 4), 0, n);
      ExhaustsShallow(v, Records(v[s], s, 4), 0, n);
      if n <= |v| {
        ShallowMore(v, s, n, |v|);
      } else {
        LevelMost(v, n);
        assert s in Level(v, n);
      }
    }
    if Shallow(v, s, |v|) {
      ShallowEnds(v, s, |v|);
    }
  }

  // Chains that only lead upwards

  /** No chain of extended partitions from sector s on leaves 32 bits. */
  ghost predicate Climbs(v: seq<Sector>, s: nat)
    requires Long(v)
    decreases U32 - s
  {
    s < |v| ==>
      forall i | 0 <= i < 4 && SeenAt(v[s], i).start != 0 && SeenAt(v[s], i).size != 0 ::
        && s + SeenAt(v[s], i).start < U32
        && (SeenAt(v[s], i).osType == OS_EXTENDED ==> Climbs(v, s + SeenAt(v[s], i).start))
  }

  /** Records that came from sector base, all ahead of it, with chains that stay in 32 bits. */
  ghost predicate Ahead(v: seq<Sector>, recs: seq<Seen>, base: nat)
    requires Long(v)
  {
    forall k | 0 <= k < |recs| ::
      base < recs[k].start < U32 && (recs[k].osType == OS_EXTENDED ==> Climbs(v, recs[k].start))
  }

  lemma {:induction false} RecordsAhead(v: seq<Sector>, s: nat, n: nat)
    requires Long(v)
    requires s < |v| && Climbs(v, s) && n <= 4
    ensures Ahead(v, Records(v[s], s, n), s)
  {
    if n == 0 {
    } else {
      RecordsAhead(v, s, n - 1);
    }
  }

  lemma {:induction false} ClimbsShallow(v: seq<Sector>, s: nat)
    requires Long(v) && s < |v| && Climbs(v, s)
    ensures Shallow(v, s, |v| - s)
    decreases |v| - s
  {
    var recs := Records(v[s], s, 4);
    RecordsAhead(v, s, 4);
    forall i | 0 <= i < |recs| && Descends(v, recs[i]) ensures Shallow(v, recs[i].start, |v| - s - 1) {
      ClimbsShallow(v, recs[i].start);
      ShallowMore(v, recs[i].start, |v| - recs[i].start, |v| - s - 1);
    }
  }

  /** So a disk whose chains stay in 32 bits can be scanned: every step leads to a higher sector. */
  lemma ChainsEnd(v: seq<Sector>, s: nat)
    requires Long(v) && s < |v| && Climbs(v, s)
    ensures Shallow(v, s, |v|) && Ends(v, s)
  {
    ClimbsShallow(v, s);
    ShallowMore(v, s, |v| - s, |v|);
    EndsExactly(v, s);
  }

  function Extended(start: nat): Record {
    Record(0, Chs(0, 0, 0), OS_EXTENDED, Chs(0, 0, 0), start, 1)
  }

  /** Three sectors: the first leads to the second, the second to the third, and the third,
      by wrapping, to the second. */
  function Cycle(on: nat, back: nat): (v: seq<Sector>)
    ensures |v| == 3 && forall i | 0 <= i < 3 :: |v[i]| == MBR_SIZE
  {
    [MbrBytes([Extended(on)]), MbrBytes([Extended(on)]), MbrBytes([Extended(back)])]
  }

  lemma OneRecord(start: nat, base: nat)
    requires 0 < start < U32
    ensures Records(MbrBytes([Extended(start)]), base, 4) == [Seen(OS_EXTENDED, (start + base) % U32, 1)]
  {
    var s := MbrBytes([Extended(start)]);
    assert s + [] == s;
    RecordRoundTrip([Extended(start)], [], 0);
    RecordRoundTrip([Extended(start)], [], 1);
    RecordRoundTrip([Extended(start)], [], 2);
    RecordRoundTrip([Extended(start)], [], 3);
    assert Records(s, base, 0) == [];
    assert Records(s, base, 1) == [Seen(OS_EXTENDED, (start + base) % U32, 1)];
    assert Records(s, base, 2) == Records(s, base, 1);
    assert Records(s, base, 3) == Records(s, base, 2);
  }

  /** Sectors 1 and 2 lead to each other. */
  ghost predicate Cyclic(v: seq<Sector>) {
    && |v| == 3 && Long(v)
    && Records(v[1], 1, 4) == [Seen(OS_EXTENDED, 2, 1)] && Records(v[2], 2, 4) == [Seen(OS_EXTENDED, 1, 1)]
  }

  lemma {:induction false} RoundAndRound(v: seq<Sector>, n: nat)
    requires Cyclic(v)
    ensures StillLooking(v, [Seen(OS_EXTENDED, 1, 1)], 0, n)
    ensures StillLooking(v, [Seen(OS_EXTENDED, 2, 1)], 0, n)
  {
    if n > 0 {
      RoundAndRound(v, n - 1);
    }
  }

  lemma NeverEnds(v: seq<Sector>)
    requires Cyclic(v) && Records(v[0], 0, 4) == [Seen(OS_EXTENDED, 1, 1)]
    ensures forall n: nat :: StillLooking(v, Records(v[0], 0, 4), 0, n)
    ensures !Ends(v, 0) && !Shallow(v, 0, |v|) && !Climbs(v, 0)
  {
    forall n: nat ensures StillLooking(v, Records(v[0], 0, 4), 0, n) {
      RoundAndRound(v, n);
    }
    if Ends(v, 0) {
      var n: nat :| Exhausts(v, Records(v[0], 0, 4), 0, n);
      SearchEnds(v, Records(v[0], 0, 4), 0, n);
    }
    EndsExactly(v, 0);
    if Climbs(v, 0) {
      ChainsEnd(v, 0);
    }
  }

  /** On this disk, where a chain leaves 32 bits, the scanner looks for its first partition for ever. */
  lemma ScanNeverEnds(v: seq<Sector>, on: nat, back: nat)
    requires on == 1 && back == U32 - 1 && v == Cycle(on, back)
    ensures forall n: nat :: StillLooking(v, Records(v[0], 0, 4), 0, n)
    ensures !Ends(v, 0) && !Shallow(v, 0, |v|) && !Climbs(v, 0)
  {
    LeadsTo(v[0], on, 0, 1);
    LeadsTo(v[1], on, 1, 2);
    LeadsTo(v[2], back, 2, 1);
    CyclicOf(v, v[1], v[2]);
    NeverEnds(v);
  }

  lemma LeadsTo(s: Sector, start: nat, base: nat, next: nat)
    requires s == MbrBytes([Extended(start)]) && 0 < start < U32 && next < U32
    requires start + base == next || start + base == next + U32
    ensures Records(s, base, 4) == [Seen(OS_EXTENDED, next, 1)]
  {
    OneRecord(start, base);
  }

  lemma CyclicOf(v: seq<Sector>, second: Sector, third: Sector)
    requires |v| == 3 && v[1] == second && v[2] == third && |v[0]| >= MBR_SIZE && |second| >= MBR_SIZE
    requires |third| >= MBR_SIZE
    requires Records(second, 1, 4) == [Seen(OS_EXTENDED, 2, 1)] && Records(third, 2, 4) == [Seen(OS_EXTENDED, 1, 1)]
    ensures Cyclic(v)
  {
  }

  /** Records behind an extended one are never looked at. */
  lemma ExtendedHidesRest(cfg: Config, v: seq<Sector>, shift: nat, recs: seq<Seen>, rest: seq<Seen>, id: nat, n: nat)
    requires Long(v) && recs != [] && Exhausts(v, recs, 0, n) && Exhausts(v, [recs[0]] + rest, 0, n)
    requires Descends(v, recs[0])
    ensures MbrFrom(cfg, v, shift, recs, 0, id, n) == MbrFrom(cfg, v, shift, [recs[0]] + rest, 0, id, n)
  {
  }
}
