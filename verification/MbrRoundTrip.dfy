/** Partitioning a disk with a master boot record and scanning it again; and scans that never end. */
module MbrRoundTrip {
  import opened Bits
  import opened Bytes
  import opened Sectors
  import opened PartInfos
  import opened GptLayout
  import opened MbrLayout
  import opened GptImage
  import opened GptFacts
  import opened ScanSpec
  import opened MbrFormat

  // One record

  function SeenOf(p: Part, shift: nat): Seen {
    Seen(p.info.sysind, Low32(Shift(p.offset, shift)), Low32(Shift(p.size, shift)))
  }

  /** A number of bytes survives being counted in sectors, and back in 32 bits, if and only if it is a number
      of whole sectors below 4 GiB. */
  lemma BytesExact(n: nat, shift: nat)
    ensures MbrBytesOf(Low32(Shift(n, shift)), shift) == n <==> Mask(n, shift) == 0 && n < U32
  {
    ShiftAndMask(n, shift);
    ShiftSmaller(n, shift);
    CutTo32(n, Shift(n, shift), Pow2(shift), Mask(n, shift));
  }

  lemma CutTo32(n: nat, q: nat, u: nat, m: nat)
    requires n == q * u + m && q <= n
    ensures (Low32(q) * u) % U32 == n <==> m == 0 && n < U32
  {
    if n < U32 {
      assert Low32(q) == q;
      Unchanged32(q * u);
    }
  }

  lemma Unchanged32(x: nat)
    requires x < U32
    ensures x % U32 == x
  {
  }

  /** What is known of a partition after a scan: its place and its indicator, and a name that counts. */
  function Renamed(p: Part, i: nat): Part {
    Part(p.offset, p.size, Info(MbrName(i + 1), NO_GUID, NO_GUID, p.info.sysind))
  }

  /** When a partition is found again at its place. */
  predicate Returns(cfg: Config, v: seq<Sector>, p: Part, shift: nat) {
    var start := Low32(Shift(p.offset, shift));
    && start != 0 && Low32(Shift(p.size, shift)) != 0 && start < |v|
    && p.info.sysind != OS_EXTENDED
    && Mask(p.offset, shift) == 0 && p.offset < U32
    && (if Identify(cfg, v[start]).Some? then Identify(cfg, v[start]).value.size == p.size
        else Mask(p.size, shift) == 0 && p.size < U32)
  }

  /** Exactly then, among records that are used, readable and not extended. */
  lemma RecordReturns(cfg: Config, v: seq<Sector>, p: Part, shift: nat, i: nat)
    requires var rec := SeenOf(p, shift);
             rec.start != 0 && rec.size != 0 && rec.start < |v| && rec.osType != OS_EXTENDED
    ensures MbrPart(cfg, v[SeenOf(p, shift).start], SeenOf(p, shift), i + 1, shift) == Renamed(p, i) <==>
            Returns(cfg, v, p, shift)
  {
    BytesExact(p.offset, shift);
    BytesExact(p.size, shift);
  }

  // The boot record

  function AllSeen(parts: seq<Part>, shift: nat): (r: seq<Seen>)
    ensures |r| == |parts| && forall i | 0 <= i < |parts| :: r[i] == SeenOf(parts[i], shift)
  {
    seq(|parts|, i requires 0 <= i < |parts| => SeenOf(parts[i], shift))
  }

  lemma RecordSeen(parts: seq<Part>, shift: nat, heads: nat, i: nat)
    requires Supported(shift) && HeadCount(heads) && i < 4
    ensures var s := BootSector(parts, shift, heads);
            |s| >= MBR_SIZE && SeenAt(s, i) == if i < |parts| then SeenOf(parts[i], shift) else Seen(0, 0, 0)
  {
    GeometryFacts(shift);
    RecordRoundTrip(RecordsOf(parts, shift, heads), Zeros(Pow2(shift) - MBR_SIZE), i);
  }

  /** Slot i of the boot record holds the i-th record, or nothing. */
  predicate SlotHolds(s: Sector, seen: seq<Seen>, i: nat)
    requires |s| >= MBR_SIZE && i < 4
  {
    SeenAt(s, i) == if i < |seen| then seen[i] else Seen(0, 0, 0)
  }

  lemma {:induction false} UsedRecords(s: Sector, seen: seq<Seen>, n: nat)
    requires |s| >= MBR_SIZE && |seen| <= 4 && n <= 4 && forall i | 0 <= i < 4 :: SlotHolds(s, seen, i)
    requires forall i | 0 <= i < |seen| :: 0 < seen[i].start < U32 && seen[i].size != 0
    ensures Records(s, 0, n) == seen[..Min(n, |seen|)]
  {
    if n == 0 {
    } else {
      UsedRecords(s, seen, n - 1);
      assert SlotHolds(s, seen, n - 1);
    }
  }

  /** Records that are not used are not seen, so there are as many as were written only if all are used. */
  lemma {:induction false} RecordsMost(s: Sector, seen: seq<Seen>, n: nat)
    requires |s| >= MBR_SIZE && |seen| <= 4 && n <= 4 && forall i | 0 <= i < 4 :: SlotHolds(s, seen, i)
    ensures |Records(s, 0, n)| <= Min(n, |seen|)
    ensures |Records(s, 0, n)| == Min(n, |seen|) ==>
              forall i | 0 <= i < n && i < |seen| :: seen[i].start != 0 && seen[i].size != 0
  {
    if n > 0 {
      RecordsMost(s, seen, n - 1);
      assert SlotHolds(s, seen, n - 1);
    }
  }

  lemma AllRecords(parts: seq<Part>, shift: nat, heads: nat)
    requires Supported(shift) && HeadCount(heads) && |parts| <= 4
    requires forall i | 0 <= i < |parts| :: SeenOf(parts[i], shift).start != 0 && SeenOf(parts[i], shift).size != 0
    ensures |BootSector(parts, shift, heads)| >= MBR_SIZE
    ensures Records(BootSector(parts, shift, heads), 0, 4) == AllSeen(parts, shift)
  {
    GeometryFacts(shift);
    var s, seen := BootSector(parts, shift, heads), AllSeen(parts, shift);
    forall i | 0 <= i < 4 ensures SlotHolds(s, seen, i) {
      RecordSeen(parts, shift, heads, i);
    }
    UsedRecords(s, seen, 4);
    assert seen[..Min(4, |seen|)] == seen;
  }

  ghost predicate AllReturn(cfg: Config, v: seq<Sector>, parts: seq<Part>, shift: nat) {
    forall i | 0 <= i < |parts| :: Returns(cfg, v, parts[i], shift)
  }

  function AllRenamed(parts: seq<Part>): (r: seq<Part>)
    ensures |r| == |parts| && forall i | 0 <= i < |parts| :: r[i] == Renamed(parts[i], i)
  {
    seq(|parts|, i requires 0 <= i < |parts| => Renamed(parts[i], i))
  }

  /** One record of a list, if it returns. */
  lemma RecordGives(cfg: Config, v: seq<Sector>, seen: seq<Seen>, p: Part, shift: nat, k: nat, n: nat, rest: seq<Part>)
    requires Long(v) && k < |seen| <= 4 && seen[k] == SeenOf(p, shift) && Returns(cfg, v, p, shift)
    requires n > 0 && Exhausts(v, seen, k, n)
    requires MbrFrom(cfg, v, shift, seen, k + 1, k + 1, n - 1) == Listing(rest, true)
    ensures MbrFrom(cfg, v, shift, seen, k, k, n) == Listing([Renamed(p, k)] + rest, true)
  {
    RecordReturns(cfg, v, p, shift, k);
  }

  lemma {:induction false} RecordsGive(cfg: Config, v: seq<Sector>, parts: seq<Part>, seen: seq<Seen>, shift: nat,
                                       k: nat, n: nat)
    requires Long(v) && |parts| <= 4 && k <= |parts| && AllReturn(cfg, v, parts, shift)
    requires seen == AllSeen(parts, shift) && Exhausts(v, seen, k, n)
    ensures MbrFrom(cfg, v, shift, seen, k, k, n) == Listing(AllRenamed(parts)[k..], true)
    decreases |parts| - k
  {
    if k < |parts| {
      RecordsGive(cfg, v, parts, seen, shift, k + 1, n - 1);
      RecordGives(cfg, v, seen, parts[k], shift, k, n, AllRenamed(parts)[k + 1..]);
      assert AllRenamed(parts)[k..] == [Renamed(parts[k], k)] + AllRenamed(parts)[k + 1..];
    }
  }

  ghost predicate NoneExtended(parts: seq<Part>) {
    forall i | 0 <= i < |parts| :: parts[i].info.sysind != OS_EXTENDED
  }

  ghost predicate Plain(recs: seq<Seen>) {
    forall i | 0 <= i < |recs| :: recs[i].osType != OS_EXTENDED
  }

  lemma {:induction false} RecordsPlain(s: Sector, base: nat, n: nat)
    requires |s| >= MBR_SIZE && n <= 4 && forall i | 0 <= i < n :: SeenAt(s, i).osType != OS_EXTENDED
    ensures Plain(Records(s, base, n))
  {
    if n == 0 {
    } else {
      RecordsPlain(s, base, n - 1);
    }
  }

  /** A boot sector without an extended partition can be scanned, wherever its partitions lie. */
  lemma BootSectorScannable(v: seq<Sector>, parts: seq<Part>, shift: nat, heads: nat)
    requires Supported(shift) && HeadCount(heads) && Uniform(v, Pow2(shift)) && |v| > 0
    requires v[0] == BootSector(parts, shift, heads) && |parts| <= 4 && NoneExtended(parts)
    ensures Scannable(v, shift) && Long(v) && Plain(Records(v[0], 0, 4))
  {
    LongEnough(v, shift);
    forall i | 0 <= i < 4 ensures SeenAt(v[0], i).osType != OS_EXTENDED {
      RecordSeen(parts, shift, heads, i);
    }
    RecordsPlain(v[0], 0, 4);
  }

  /** No more partitions are found than there are records left. */
  lemma {:induction false} PlainMost(cfg: Config, v: seq<Sector>, recs: seq<Seen>, shift: nat, k: nat, id: nat, n: nat)
    requires Long(v) && k <= |recs| && Plain(recs) && Exhausts(v, recs, k, n)
    ensures |MbrFrom(cfg, v, shift, recs, k, id, n).parts| <= |recs| - k
    decreases |recs| - k
  {
    if k < |recs| {
      PlainMost(cfg, v, recs, shift, k + 1, if recs[k].start >= |v| then id else NextId(id), n - 1);
    }
  }

  /** If the records give what was written, the first of them does. */
  lemma RecordGivesOnly(cfg: Config, v: seq<Sector>, seen: seq<Seen>, p: Part, shift: nat, k: nat, n: nat,
                        rest: seq<Part>)
    requires Long(v) && k < |seen| <= 4 && Plain(seen) && seen[k] == SeenOf(p, shift)
    requires seen[k].start != 0 && seen[k].size != 0
    requires Exhausts(v, seen, k, n) && |rest| == |seen| - k - 1
    requires MbrFrom(cfg, v, shift, seen, k, k, n) == Listing([Renamed(p, k)] + rest, true)
    ensures Returns(cfg, v, p, shift)
    ensures n > 0 && MbrFrom(cfg, v, shift, seen, k + 1, k + 1, n - 1) == Listing(rest, true)
  {
    PlainMost(cfg, v, seen, shift, k + 1, k, n - 1);
    var l := MbrFrom(cfg, v, shift, seen, k + 1, k + 1, n - 1);
    assert seen[k].start < |v|;
    var found := MbrPart(cfg, v[seen[k].start], seen[k], k + 1, shift);
    assert ([found] + l.parts)[0] == ([Renamed(p, k)] + rest)[0];
    assert ([found] + l.parts)[1..] == l.parts && ([Renamed(p, k)] + rest)[1..] == rest;
    RecordReturns(cfg, v, p, shift, k);
  }

  lemma {:induction false} RecordsGiveOnly(cfg: Config, v: seq<Sector>, parts: seq<Part>, seen: seq<Seen>, shift: nat,
                                           k: nat, n: nat)
    requires Long(v) && k <= |parts| <= 4 && seen == AllSeen(parts, shift) && Plain(seen)
    requires forall i | 0 <= i < |seen| :: seen[i].start != 0 && seen[i].size != 0
    requires Exhausts(v, seen, k, n)
    requires MbrFrom(cfg, v, shift, seen, k, k, n) == Listing(AllRenamed(parts)[k..], true)
    ensures forall i | k <= i < |parts| :: Returns(cfg, v, parts[i], shift)
    decreases |parts| - k
  {
    if k < |parts| {
      var rest := AllRenamed(parts)[k + 1..];
      assert AllRenamed(parts)[k..] == [Renamed(parts[k], k)] + rest;
      RecordGivesOnly(cfg, v, seen, parts[k], shift, k, n, rest);
      RecordsGiveOnly(cfg, v, parts, seen, shift, k + 1, n - 1);
    }
  }

  /** The partitions of a GPT have no indicator. */
  lemma {:induction false} GptIndicators(cfg: Config, v: seq<Sector>, shift: nat, lba: nat, num: nat, k: nat)
    requires Supported(shift) && forall s | 0 <= s < |v| :: |v[s]| == Pow2(shift)
    ensures forall p | p in GptFrom(cfg, v, shift, lba, num, k).parts :: p.info.sysind == 0
    decreases num - k
  {
    if k < num {
      GptIndicators(cfg, v, shift, lba, num, k + 1);
    }
  }

  /** What the scan makes of the boot record itself. */
  lemma BootSectorScans(cfg: Config, v: seq<Sector>, parts: seq<Part>, shift: nat, heads: nat)
    requires Supported(shift) && HeadCount(heads) && |v| > 0 && v[0] == BootSector(parts, shift, heads)
    ensures |v[0]| >= MBR_SIZE && Identify(cfg, v[0]) == None && Signed(v[0])
    ensures Protective(v[0]) <==> parts != [] && parts[0].info.sysind == OS_GPT
  {
    GeometryFacts(shift);
    var recs, rest := RecordsOf(parts, shift, heads), Zeros(Pow2(shift) - MBR_SIZE);
    BootRecordNoVolume(cfg, recs, rest);
    SignatureRoundTrip(recs, rest);
    RecordSeen(parts, shift, heads, 0);
  }

  lemma BootSectorGives(cfg: Config, v: seq<Sector>, parts: seq<Part>, shift: nat, heads: nat)
    requires Supported(shift) && HeadCount(heads) && Uniform(v, Pow2(shift)) && 1 <= |parts| <= 4
    requires |v| > 0 && v[0] == BootSector(parts, shift, heads)
    requires AllReturn(cfg, v, parts, shift) && parts[0].info.sysind != OS_GPT
    ensures Scannable(v, shift) && Scan(cfg, v, shift) == Listing(AllRenamed(parts), true)
  {
    BootSectorScannable(v, parts, shift, heads);
    BootSectorScans(cfg, v, parts, shift, heads);
    AllRecords(parts, shift, heads);
    RecordsGive(cfg, v, parts, AllSeen(parts, shift), shift, 0, Rounds(v, 0));
    assert AllRenamed(parts)[0..] == AllRenamed(parts);
  }

  /** All records are used if as many are seen as there are partitions. */
  lemma AllUsed(parts: seq<Part>, shift: nat, heads: nat)
    requires Supported(shift) && HeadCount(heads) && |parts| <= 4 && |BootSector(parts, shift, heads)| >= MBR_SIZE
    requires |Records(BootSector(parts, shift, heads), 0, 4)| >= |parts|
    ensures forall i | 0 <= i < |parts| :: SeenOf(parts[i], shift).start != 0 && SeenOf(parts[i], shift).size != 0
    ensures Records(BootSector(parts, shift, heads), 0, 4) == AllSeen(parts, shift)
  {
    var s, seen := BootSector(parts, shift, heads), AllSeen(parts, shift);
    forall i | 0 <= i < 4 ensures SlotHolds(s, seen, i) {
      RecordSeen(parts, shift, heads, i);
    }
    RecordsMost(s, seen, 4);
    assert forall i | 0 <= i < |parts| :: seen[i] == SeenOf(parts[i], shift);
    AllRecords(parts, shift, heads);
  }

  lemma BootSectorGivesOnly(cfg: Config, v: seq<Sector>, parts: seq<Part>, shift: nat, heads: nat)
    requires Supported(shift) && HeadCount(heads) && Uniform(v, Pow2(shift)) && 1 <= |parts| <= 4
    requires |v| > 0 && v[0] == BootSector(parts, shift, heads)
    requires Scannable(v, shift) && Scan(cfg, v, shift) == Listing(AllRenamed(parts), true)
    ensures AllReturn(cfg, v, parts, shift) && parts[0].info.sysind != OS_GPT
  {
    BootSectorScans(cfg, v, parts, shift, heads);
    NotProtective(cfg, v, parts, shift);
    NotExtended(cfg, v, parts, shift);
    BootSectorScannable(v, parts, shift, heads);
    var recs, n := Records(v[0], 0, 4), Rounds(v, 0);
    PlainMost(cfg, v, recs, shift, 0, 0, n);
    AllUsed(parts, shift, heads);
    assert AllRenamed(parts)[0..] == AllRenamed(parts);
    RecordsGiveOnly(cfg, v, parts, recs, shift, 0, n);
  }

  /** What is found with an indicator was not found in a GPT. */
  lemma NotProtective(cfg: Config, v: seq<Sector>, parts: seq<Part>, shift: nat)
    requires Supported(shift) && Scannable(v, shift) && |v| > 0 && |v[0]| >= MBR_SIZE && parts != []
    requires Identify(cfg, v[0]) == None && Signed(v[0])
    requires Protective(v[0]) ==> parts[0].info.sysind == OS_GPT
    requires Scan(cfg, v, shift) == Listing(AllRenamed(parts), true)
    ensures !Protective(v[0])
  {
    var h, l := HeaderOf(v), Scan(cfg, v, shift);
    if h.Some? {
      GptIndicators(cfg, v, shift, h.value.lba, h.value.num, 0);
    }
    assert l.parts[0].info.sysind == parts[0].info.sysind;
    assert l.parts[0] in l.parts;
  }

  /** What the boot records list has a number in its name, and is never an extended partition. */
  lemma {:induction false} NeverExtended(cfg: Config, v: seq<Sector>, shift: nat, recs: seq<Seen>, k: nat, id: nat,
                                         n: nat)
    requires Long(v) && Exhausts(v, recs, k, n)
    ensures forall p | p in MbrFrom(cfg, v, shift, recs, k, id, n).parts ::
              p.info.sysind != OS_EXTENDED && p.info.name != []
    decreases n
  {
    if k < |recs| {
      var rec := recs[k];
      if Descends(v, rec) {
        NeverExtended(cfg, v, shift, Records(v[rec.start], rec.start, 4), 0, id, n - 1);
      } else {
        NeverExtended(cfg, v, shift, recs, k + 1, if rec.start >= |v| then id else NextId(id), n - 1);
      }
    }
  }

  /** So no partition that is listed as it was written is an extended one. */
  lemma NotExtended(cfg: Config, v: seq<Sector>, parts: seq<Part>, shift: nat)
    requires Supported(shift) && Scannable(v, shift) && |v| > 0 && |v[0]| >= MBR_SIZE
    requires Identify(cfg, v[0]) == None && Signed(v[0]) && !Protective(v[0])
    requires Scan(cfg, v, shift) == Listing(AllRenamed(parts), true)
    ensures NoneExtended(parts)
  {
    NeverExtended(cfg, v, shift, Records(v[0], 0, 4), 0, 0, Rounds(v, 0));
    var l := Scan(cfg, v, shift);
    forall i | 0 <= i < |parts| ensures parts[i].info.sysind != OS_EXTENDED {
      assert l.parts[i] in l.parts;
    }
  }

  /** Formatting a disk with up to four partitions and scanning it, if the scan ends, finds them in table order at the
      same places with the same indicators, named mbr1, mbr2 and so on, if and only if each can be recognised and the
      first does not announce a GPT. */
  lemma FormatThenScan(cfg: Config, v0: seq<Sector>, parts: seq<Part>, shift: nat, heads: nat)
    requires Supported(shift) && HeadCount(heads) && Uniform(v0, Pow2(shift)) && |v0| > 0 && 1 <= |parts| <= 4
    requires Scannable(v0[0 := BootSector(parts, shift, heads)], shift)
    ensures Scan(cfg, v0[0 := BootSector(parts, shift, heads)], shift) == Listing(AllRenamed(parts), true) <==>
            AllReturn(cfg, v0, parts, shift) && parts[0].info.sysind != OS_GPT
  {
    var v := v0[0 := BootSector(parts, shift, heads)];
    forall i | 0 <= i < |parts| ensures Returns(cfg, v, parts[i], shift) <==> Returns(cfg, v0, parts[i], shift) {
    }
    if AllReturn(cfg, v0, parts, shift) && parts[0].info.sysind != OS_GPT {
      BootSectorGives(cfg, v, parts, shift, heads);
    }
    if Scan(cfg, v, shift) == Listing(AllRenamed(parts), true) {
      BootSectorGivesOnly(cfg, v, parts, shift, heads);
    }
  }
}
