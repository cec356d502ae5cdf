/** What a scan of a disk finds, as a function of what is on it. */
module ScanSpec {
  import opened Bits
  import opened Bytes
  import opened Sectors
  import opened PartInfos
  import opened GptLayout
  import opened MbrLayout
  import opened GptImage

  datatype Option<T> = None | Some(value: T)

  // Boot sectors of volumes

  datatype Volume = Volume(name: seq<byte>, size: nat)

  // "EXFAT   "
  const FSTYPE_EXFAT: nat := 0x2020_2054_4146_5845

  /** What every boot sector that is recognised has: the exFAT name, or the first byte of a jump. */
  predicate Plausible(s: Sector) {
    && |s| >= MBR_SIZE
    && ((Signed(s) && FromLE(s[3..11]) == FSTYPE_EXFAT) || s[0] == 0xEB || s[0] == 0xE9 || s[0] == 0xE8)
  }

  /** How volumes are recognised beyond that, which type identifiers need no look at the
      volume, and how a GUID reads. */
  datatype Config = Config(probe: Sector -> Option<Volume>, known: Guid -> bool, text: Guid -> seq<byte>)

  function Identify(cfg: Config, s: Sector): (r: Option<Volume>)
    ensures r.Some? ==> Plausible(s)
  {
    if Plausible(s) then cfg.probe(s) else None
  }

  const NO_GUID: Guid := Zeros(16)

  /** The partitions still to come, and whether the scan then ends without an error. */
  datatype Listing = Listing(parts: seq<Part>, ok: bool)

  function Cons(p: Part, l: Listing): Listing {
    Listing([p] + l.parts, l.ok)
  }

  /** Every sector can hold a boot record. */
  ghost predicate Long(v: seq<Sector>) {
    forall i | 0 <= i < |v| :: |v[i]| >= MBR_SIZE
  }

  // GPT

  /** The sector that is read for a 64-bit sector number: its address may wrap. */
  function Wrapped(lba: nat, shift: nat): nat {
    Shift(U64(lba * Pow2(shift)), shift)
  }

  lemma WrappedSmall(lba: nat, shift: nat)
    requires lba * Pow2(shift) < WORD
    ensures Wrapped(lba, shift) == lba
  {
    ShiftAndMaskUnique(lba * Pow2(shift), shift, lba, 0);
  }

  lemma PerSectorPositive(shift: nat)
    requires Supported(shift)
    ensures PerSector(shift) > 0
  {
    GeometryFacts(shift);
  }

  /** The sector of the table that entry k is in. */
  function EntrySector(lba: nat, k: nat, shift: nat): nat
    requires Supported(shift)
  {
    PerSectorPositive(shift);
    Wrapped(U64(lba + k / PerSector(shift)), shift)
  }

  function EntryIn(s: Sector, k: nat, shift: nat): Entry
    requires Supported(shift) && |s| == Pow2(shift)
  {
    GeometryFacts(shift);
    var at := (k % PerSector(shift)) * ENTRY_SIZE;
    ReadEntry(s[at..at + ENTRY_SIZE])
  }

  /** A type identifier that is not known asks for a look at the partition's first sector. */
  predicate Skipped(cfg: Config, v: seq<Sector>, e: Entry, shift: nat) {
    e.typeGuid == NO_GUID || (!cfg.known(e.typeGuid) && Wrapped(e.start, shift) >= |v|)
  }

  function GptPart(cfg: Config, v: seq<Sector>, e: Entry, shift: nat): Part {
    var info := Info(e.name, e.typeGuid, e.uniqueGuid, 0);
    var found := if cfg.known(e.typeGuid) || Wrapped(e.start, shift) >= |v| then None
                 else Identify(cfg, v[Wrapped(e.start, shift)]);
    Part(EntryOffset(e, shift), if found.Some? then found.value.size else EntrySize(e, shift), info)
  }

  /** Entries k to num - 1 of the table at lba. */
  function GptFrom(cfg: Config, v: seq<Sector>, shift: nat, lba: nat, num: nat, k: nat): Listing
    requires Supported(shift) && forall s | 0 <= s < |v| :: |v[s]| == Pow2(shift)
    decreases num - k
  {
    if k >= num then Listing([], true)
    else if EntrySector(lba, k, shift) >= |v| then Listing([], false)
    else
      var e, rest := EntryIn(v[EntrySector(lba, k, shift)], k, shift), GptFrom(cfg, v, shift, lba, num, k + 1);
      if Skipped(cfg, v, e, shift) then rest else Cons(GptPart(cfg, v, e, shift), rest)
  }

  // MBR

  /** The records in use among the first n of a boot record, with their sectors counted from base. */
  function Records(s: Sector, base: nat, n: nat): (r: seq<Seen>)
    requires |s| >= MBR_SIZE && n <= 4
    ensures |r| <= n
  {
    if n == 0 then []
    else
      var before, rec := Records(s, base, n - 1), SeenAt(s, n - 1);
      if rec.start == 0 || rec.size == 0 then before else before + [rec.(start := (rec.start + base) % U32)]
  }

  /** The scanner goes on with the records found in the record's sector. */
  predicate Descends(v: seq<Sector>, rec: Seen) {
    rec.start < |v| && rec.osType == OS_EXTENDED
  }

  /** Going through the records from the k-th on ends within n rounds, whichever sectors can be read. */
  ghost predicate Exhausts(v: seq<Sector>, recs: seq<Seen>, k: nat, n: nat)
    requires Long(v)
    decreases n
  {
    k >= |recs| ||
    (n > 0 && Exhausts(v, recs, k + 1, n - 1) &&
     (Descends(v, recs[k]) ==> Exhausts(v, Records(v[recs[k].start], recs[k].start, 4), 0, n - 1)))
  }

  /** No way from extended partition to extended partition, from sector s on, is longer than d. */
  ghost predicate Shallow(v: seq<Sector>, s: nat, d: nat)
    requires Long(v) && s < |v|
    decreases d
  {
    forall i | 0 <= i < |Records(v[s], s, 4)| && Descends(v, Records(v[s], s, 4)[i]) ::
      d > 0 && Shallow(v, Records(v[s], s, 4)[i].start, d - 1)
  }

  lemma {:induction false} ExhaustsMore(v: seq<Sector>, recs: seq<Seen>, k: nat, n: nat, m: nat)
    requires Long(v) && Exhausts(v, recs, k, n) && n <= m
    ensures Exhausts(v, recs, k, m)
    decreases n
  {
    if k < |recs| {
      ExhaustsMore(v, recs, k + 1, n - 1, m - 1);
      if Descends(v, recs[k]) {
        ExhaustsMore(v, Records(v[recs[k].start], recs[k].start, 4), 0, n - 1, m - 1);
      }
    }
  }

  lemma ExhaustsBoth(v: seq<Sector>, recs: seq<Seen>, k: nat, a: nat, b: nat)
    requires Long(v) && k < |recs| && Exhausts(v, recs, k + 1, a)
    requires Descends(v, recs[k]) ==> Exhausts(v, Records(v[recs[k].start], recs[k].start, 4), 0, b)
    ensures Exhausts(v, recs, k, a + b + 1)
  {
    ExhaustsMore(v, recs, k + 1, a, a + b);
    if Descends(v, recs[k]) {
      ExhaustsMore(v, Records(v[recs[k].start], recs[k].start, 4), 0, b, a + b);
    }
  }

  /** Records whose ways are all of bounded length can be gone through. */
  lemma {:induction false} ShallowExhausts(v: seq<Sector>, recs: seq<Seen>, k: nat, d: nat) returns (n: nat)
    requires Long(v)
    requires forall i | k <= i < |recs| && Descends(v, recs[i]) :: d > 0 && Shallow(v, recs[i].start, d - 1)
    ensures Exhausts(v, recs, k, n)
    decreases d, |recs| - k
  {
    n := 0;
    if k < |recs| {
      var a := ShallowExhausts(v, recs, k + 1, d);
      var b := 0;
      if Descends(v, recs[k]) {
        b := ShallowExhausts(v, Records(v[recs[k].start], recs[k].start, 4), 0, d - 1);
      }
      ExhaustsBoth(v, recs, k, a, b);
      n := a + b + 1;
    }
  }

  /** Going through the records of sector s ends. */
  ghost predicate Ends(v: seq<Sector>, s: nat)
    requires Long(v) && s < |v|
  {
    exists n: nat :: Exhausts(v, Records(v[s], s, 4), 0, n)
  }

  lemma ShallowEnds(v: seq<Sector>, s: nat, d: nat)
    requires Long(v) && s < |v| && Shallow(v, s, d)
    ensures Ends(v, s)
  {
    var n := ShallowExhausts(v, Records(v[s], s, 4), 0, d);
  }

  /** So many rounds are enough, if no way is longer than the disk. */
  ghost function Rounds(v: seq<Sector>, s: nat): (n: nat)
    requires Long(v) && s < |v| && Shallow(v, s, |v|)
    ensures Exhausts(v, Records(v[s], s, 4), 0, n)
  {
    ShallowEnds(v, s, |v|);
    var n: nat :| Exhausts(v, Records(v[s], s, 4), 0, n);
    n
  }

  function Decimal(n: nat): seq<byte> {
    if n < 10 then [48 + n] else Decimal(n / 10) + [48 + n % 10]
  }

  function MbrName(id: nat): seq<byte> {
    // "mbr"
    [109, 98, 114] + Decimal(id)
  }

  /** Sector numbers are shifted in 32 bits. */
  function MbrBytesOf(n: nat, shift: nat): nat {
    (n * Pow2(shift)) % U32
  }

  function MbrPart(cfg: Config, s: Sector, rec: Seen, id: nat, shift: nat): Part {
    var found := Identify(cfg, s);
    Part(MbrBytesOf(rec.start, shift), if found.Some? then found.value.size else MbrBytesOf(rec.size, shift),
         Info(MbrName(id), NO_GUID, NO_GUID, rec.osType))
  }

  function NextId(id: nat): nat {
    (id + 1) % 0x1_0000
  }

  /** Records k and on of a boot record, for which n rounds are enough; an extended one replaces all that are left. */
  ghost function MbrFrom(cfg: Config, v: seq<Sector>, shift: nat, recs: seq<Seen>, k: nat, id: nat, n: nat): Listing
    requires Long(v) && Exhausts(v, recs, k, n)
    decreases n
  {
    if k >= |recs| then Listing([], true)
    else
      var rec := recs[k];
      if rec.start >= |v| then MbrFrom(cfg, v, shift, recs, k + 1, id, n - 1)
      else if rec.osType == OS_EXTENDED then
        MbrFrom(cfg, v, shift, Records(v[rec.start], rec.start, 4), 0, id, n - 1)
      else
        Cons(MbrPart(cfg, v[rec.start], rec, NextId(id), shift), MbrFrom(cfg, v, shift, recs, k + 1, NextId(id), n - 1))
  }

  /** What is found does not depend on that number. */
  lemma {:induction false} MbrFromAny(cfg: Config, v: seq<Sector>, shift: nat, recs: seq<Seen>, k: nat, id: nat,
                                      n: nat, m: nat)
    requires Long(v) && Exhausts(v, recs, k, n) && Exhausts(v, recs, k, m)
    ensures MbrFrom(cfg, v, shift, recs, k, id, n) == MbrFrom(cfg, v, shift, recs, k, id, m)
    decreases n
  {
    if k < |recs| {
      var rec := recs[k];
      if Descends(v, rec) {
        MbrFromAny(cfg, v, shift, Records(v[rec.start], rec.start, 4), 0, id, n - 1, m - 1);
      } else {
        MbrFromAny(cfg, v, shift, recs, k + 1, if rec.start >= |v| then id else NextId(id), n - 1, m - 1);
      }
    }
  }

  // The whole disk

  /** The first sector announces a GPT. */
  predicate Protective(s: Sector)
    requires |s| >= MBR_SIZE
  {
    SeenAt(s, 0).osType == OS_GPT
  }

  /** A disk with sectors of one size, and if it has an MBR one on which no way through extended partitions is longer
      than the disk, which is to say that none comes back to where it was. */
  ghost predicate Scannable(v: seq<Sector>, shift: nat) {
    && Uniform(v, Pow2(shift))
    && (Supported(shift) ==> Long(v))
    && (Supported(shift) && |v| > 0 && Signed(v[0]) && !Protective(v[0]) ==> Shallow(v, 0, |v|))
  }

  lemma LongEnough(v: seq<Sector>, shift: nat)
    requires Supported(shift) && Uniform(v, Pow2(shift))
    ensures Long(v)
  {
    GeometryFacts(shift);
  }

  /** Where a GPT is and how many entries it has. */
  datatype TableAt = TableAt(lba: nat, num: nat)

  function HeaderOf(v: seq<Sector>): Option<TableAt> {
    if |v| < 2 || |v[1]| < HEADER_SIZE || !HeaderOk(v[1]) then None
    else Some(TableAt(EntryLbaOf(v[1]), NumEntriesOf(v[1])))
  }

  /** What a scan finds. */
  ghost function Scan(cfg: Config, v: seq<Sector>, shift: nat): Listing
    requires Scannable(v, shift)
  {
    if !Supported(shift) || |v| == 0 then Listing([], false)
    else
      var found := Identify(cfg, v[0]);
      if found.Some? then Listing([Part(0, found.value.size, Info(found.value.name, NO_GUID, NO_GUID, 0))], true)
      else if !Signed(v[0]) then Listing([], true)
      else if Protective(v[0]) then
        var h := HeaderOf(v);
        if h == None then Listing([], false) else GptFrom(cfg, v, shift, h.value.lba, h.value.num, 0)
      else MbrFrom(cfg, v, shift, Records(v[0], 0, 4), 0, 0, Rounds(v, 0))
  }
}
