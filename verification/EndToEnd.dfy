/** Formatting a disk and scanning it again, as the program runs both on one device. */
module EndToEnd {
  import opened Bits
  import opened Sectors
  import opened Cache
  import opened PartInfos
  import opened PlacementSafety
  import opened Validation
  import opened BlockDevices
  import opened MbrLayout
  import opened GptLayout
  import opened GptImage
  import opened GptFacts
  import opened ScanSpec
  import opened Scanners
  import GptFormat
  import GptRoundTrip
  import MbrFormat
  import MbrRoundTrip

  // GPT

  /** The byte behind the last one that partitions may use. */
  function UsableEnd(shift: nat, drive: nat): nat
    requires Supported(shift) && LargeEnough(shift, drive)
  {
    MulMonotone(Pow2(shift), 0, BackupSector(shift, drive));
    BackupSector(shift, drive) * Pow2(shift)
  }

  /** The table is sound for the space of the drive, not too long, and each of its
      partitions can be recognised again. */
  ghost predicate Recoverable(cfg: Config, v: seq<Sector>, parts: seq<Part>, shift: nat)
    requires Supported(shift)
  {
    && |parts| <= ITEMS && LargeEnough(shift, |v|) && Sound(parts, ALIGN, UsableEnd(shift, |v|))
    && forall i | 0 <= i < |parts| :: GptRoundTrip.ComesBack(cfg, v, parts[i], shift)
  }

  lemma ScanOfFormatted(cfg: Config, v0: seq<Sector>, v: seq<Sector>, parts: seq<Part>, shift: nat, guid: Guid,
                        signedChar: bool)
    requires Supported(shift) && LargeEnough(shift, |v0|) && Uniform(v0, Pow2(shift))
    requires v == FormattedDisk(v0, parts, shift, guid, signedChar)
    ensures Scannable(v, shift)
    ensures Recoverable(cfg, v0, parts, shift) ==> Scan(cfg, v, shift) == Listing(parts, true)
  {
    GptRoundTrip.FormattedScans(cfg, v0, parts, shift, guid, signedChar);
    if Recoverable(cfg, v0, parts, shift) {
      GptRoundTrip.FormatThenScan(cfg, v0, parts, shift, guid, signedChar, UsableEnd(shift, |v0|));
    }
  }

  /** Lists the partitions of a disk that held v0 before it was formatted. */
  method ScanGpt(dev: BlockDevice, cfg: Config, ghost v0: seq<Sector>, ghost table: seq<Part>, ghost guid: Guid,
                 ghost signedChar: bool) returns (parts: seq<Part>, ok: bool)
    requires dev.Valid() && InBounds(dev.slots, |dev.view|) && Supported(dev.sectorSizeShift)
    requires LargeEnough(dev.sectorSizeShift, |v0|) && Uniform(v0, dev.sectorSize)
    requires dev.view == FormattedDisk(v0, table, dev.sectorSizeShift, guid, signedChar)
    modifies dev`medium, dev`faults, dev`rawReads, dev`rawWrites, dev`slots, dev.Parts
    ensures dev.Valid() && dev.faults >= old(dev.faults)
    ensures dev.faults == old(dev.faults) && Recoverable(cfg, v0, table, dev.sectorSizeShift) ==>
              ok && parts == Named(cfg, table)
  {
    ScanOfFormatted(cfg, v0, dev.view, table, dev.sectorSizeShift, guid, signedChar);
    parts, ok := ScanPartitions(dev, cfg);
  }

  /** What became of the table, given the verdict on it; without raw faults the error is that of the verdict. */
  ghost predicate Judged(v: Verdict, err: Error, hangs: bool, after: seq<Part>, clean: bool) {
    hangs == v.Hangs? && (!hangs ==> after == v.parts && (clean ==> err == v.err))
  }

  /** Formats a disk with a GPT and, if that succeeds, lists its partitions: they are those of the validated table. */
  method FormatAndScanGpt(dev: BlockDevice, table: array<Part>, diskGuid: Guid, generated: Guid, signedChar: bool,
                          cfg: Config)
    returns (err: Error, hangs: bool, parts: seq<Part>, ok: bool)
    requires dev.Valid() && table !in dev.Parts
    requires Supported(dev.sectorSizeShift) ==> LargeEnough(dev.sectorSizeShift, |dev.view|)
    modifies dev`medium, dev`faults, dev`rawReads, dev`rawWrites, dev`slots, dev`view, dev`past, dev.Parts, table
    modifies dev`rawSyncs, dev`syncedWrites
    ensures dev.Valid() && dev.faults >= old(dev.faults)
    ensures table.Length == 0 || !Supported(dev.sectorSizeShift) ==>
              err == BadParam && !hangs && table[..] == old(table[..])
    ensures table.Length > 0 && Supported(dev.sectorSizeShift) ==>
              Judged(Validated(old(table[..]), GptSpace(dev.sectorSizeShift, |old(dev.view)|)), err, hangs, table[..],
                     dev.faults == old(dev.faults) && InBounds(old(dev.slots), |old(dev.view)|))
    ensures err == Success && !hangs ==> Supported(dev.sectorSizeShift)
    ensures err == Success && !hangs && dev.faults == old(dev.faults) &&
            Recoverable(cfg, old(dev.view), table[..], dev.sectorSizeShift) ==>
              ok && parts == Named(cfg, table[..])
  {
    ghost var v0 := dev.view;
    parts, ok := [], false;
    err, hangs := GptFormat.FormatDisk(dev, table, diskGuid, generated, signedChar);
    if err != Success || hangs {
      return;
    }
    parts, ok := ScanGpt(dev, cfg, v0, table[..], GptFormat.DiskGuid(diskGuid, generated), signedChar);
  }

  // A table of percentages

  /** No sector is taken for the first one of a volume, as on an empty drive. */
  ghost predicate NoVolumes(cfg: Config, v: seq<Sector>) {
    forall s | 0 <= s < |v| :: Identify(cfg, v[s]) == None
  }

  /** What can be said of an entry before it has a place: it has a type, which is known or else there are no volumes
      on the drive, and its name fits. */
  ghost predicate Presentable(cfg: Config, v: seq<Sector>, p: Part) {
    && p.info.typeGuid != NO_GUID && p.info.sysind == 0
    && (cfg.known(p.info.typeGuid) || NoVolumes(cfg, v))
    && |p.info.name| <= NAME_LENGTH && 0 !in p.info.name
  }

  ghost predicate AllPresentable(cfg: Config, v: seq<Sector>, parts: seq<Part>) {
    forall i | 0 <= i < |parts| :: Presentable(cfg, v, parts[i])
  }

  lemma MultipleOfSector(x: nat, q: nat, shift: nat)
    requires x == q * Pow2(shift)
    ensures Mask(x, shift) == 0
  {
    ShiftAndMaskUnique(x, shift, q, 0);
  }

  lemma UnitsOfSectors(x: nat, shift: nat)
    requires Supported(shift) && x % ALIGN == 0
    ensures Mask(x, shift) == 0
  {
    FirstSectorFacts(shift);
    MultipleOfUnit(x, x / ALIGN, FirstSector(shift), Pow2(shift));
    MultipleOfSector(x, FirstSector(shift) * (x / ALIGN), shift);
  }

  lemma MultipleOfUnit(x: nat, q: nat, f: nat, u: nat)
    requires f * u == ALIGN && x == q * ALIGN
    ensures x == (f * q) * u && f * q >= 0
  {
    MulMonotone(f, 0, q);
    Reassociate(q, f, u);
  }

  /** The partitions lie one behind the other, each starting and ending with a sector. */
  ghost predicate OnSectors(parts: seq<Part>, minOffset: nat, shift: nat) {
    forall k | 0 <= k <= |parts| :: AtSector(parts, minOffset, shift, k)
  }

  ghost predicate AtSector(parts: seq<Part>, minOffset: nat, shift: nat, k: nat)
    requires k <= |parts|
  {
    Mask(StartOf(parts, minOffset, k), shift) == 0
  }

  ghost function StartOf(parts: seq<Part>, minOffset: nat, k: nat): nat
    requires k <= |parts|
  {
    minOffset + SizeSum(parts, k)
  }

  lemma SumsAreSectors(parts: seq<Part>, r: Pass, s: Space, minOffset: nat, shift: nat)
    requires Supported(shift) && 0 < s.blockSize <= ALIGN && s.blockSize == Pow2(shift) && minOffset == ALIGN
    requires |r.parts| == |parts| && Shared(parts, r, |parts|, s)
    ensures OnSectors(r.parts, minOffset, shift)
  {
    forall k | 0 <= k <= |parts| ensures AtSector(r.parts, minOffset, shift, k) {
      var start := StartOf(r.parts, minOffset, k);
      if k < |parts| {
        SizesAligned(r.parts, k);
        SumAligned(minOffset, SizeSum(r.parts, k));
        UnitsOfSectors(start, shift);
      } else {
        FirstSectorFacts(shift);
        SumProduct(FirstSector(shift), r.total, Pow2(shift));
        MultipleOfSector(start, FirstSector(shift) + r.total, shift);
      }
    }
  }

  lemma PlaceOf(parts: seq<Part>, after: seq<Part>, minOffset: nat, i: nat)
    requires LaidOut(parts, after, minOffset) && i < |parts|
    ensures after[i] == parts[i].(offset := StartOf(parts, minOffset, i))
    ensures StartOf(parts, minOffset, i) + parts[i].size == StartOf(parts, minOffset, i + 1)
  {
  }

  lemma SectorAt(parts: seq<Part>, minOffset: nat, shift: nat, k: nat) returns (start: nat)
    requires OnSectors(parts, minOffset, shift) && k <= |parts|
    ensures start == StartOf(parts, minOffset, k) && Mask(start, shift) == 0
  {
    start := StartOf(parts, minOffset, k);
    assert AtSector(parts, minOffset, shift, k);
  }

  lemma PresentableComesBack(cfg: Config, v: seq<Sector>, p: Part, shift: nat, start: nat, end: nat)
    requires Presentable(cfg, v, p) && p.offset == start && p.offset + p.size == end
    requires Mask(start, shift) == Mask(end, shift) == 0 && StartLba(p, shift) < |v|
    ensures GptRoundTrip.ComesBack(cfg, v, p, shift)
  {
  }

  lemma PlaceComesBack(cfg: Config, v: seq<Sector>, parts: seq<Part>, after: seq<Part>, minOffset: nat, shift: nat,
                       i: nat)
    requires OnSectors(parts, minOffset, shift) && LaidOut(parts, after, minOffset) && i < |parts|
    requires Presentable(cfg, v, parts[i]) && StartLba(after[i], shift) < |v|
    ensures GptRoundTrip.ComesBack(cfg, v, after[i], shift)
  {
    PlaceOf(parts, after, minOffset, i);
    var start := SectorAt(parts, minOffset, shift, i);
    var end := SectorAt(parts, minOffset, shift, i + 1);
    PresentableComesBack(cfg, v, after[i], shift, start, end);
  }

  /** The first sector of every partition of a sound table can be read. */
  lemma StartsReadable(parts: seq<Part>, shift: nat, drive: nat)
    requires Supported(shift) && LargeEnough(shift, drive) && Sound(parts, ALIGN, UsableEnd(shift, drive))
    ensures forall i | 0 <= i < |parts| :: StartLba(parts[i], shift) < drive
  {
    FirstSectorFacts(shift);
    forall i | 0 <= i < |parts| ensures StartLba(parts[i], shift) < drive {
      assert InPlace(EntryAt(parts, i), ALIGN, UsableEnd(shift, drive));
      GptRoundTrip.StartWithin(parts[i], shift, FirstSector(shift), BackupSector(shift, drive), Pow2(shift));
    }
  }

  /** So all of them can be recognised again. */
  lemma SharesComeBack(cfg: Config, v: seq<Sector>, parts: seq<Part>, r: Pass, after: seq<Part>, s: Space,
                      minOffset: nat, shift: nat)
    requires Supported(shift) && 0 < s.blockSize <= ALIGN && s.blockSize == Pow2(shift) && minOffset == ALIGN
    requires |r.parts| == |parts| && Shared(parts, r, |parts|, s) && LaidOut(r.parts, after, minOffset)
    requires AllPresentable(cfg, v, parts) && forall i | 0 <= i < |after| :: StartLba(after[i], shift) < |v|
    ensures forall i | 0 <= i < |after| :: GptRoundTrip.ComesBack(cfg, v, after[i], shift)
  {
    SumsAreSectors(parts, r, s, minOffset, shift);
    forall i | 0 <= i < |after| ensures GptRoundTrip.ComesBack(cfg, v, after[i], shift) {
      assert Presentable(cfg, v, parts[i]);
      PlaceComesBack(cfg, v, r.parts, after, minOffset, shift, i);
    }
  }

  /** What comes of validating percentages for a drive with at least 100 sectors to give away. */
  ghost predicate SharedOut(parts: seq<Part>, after: seq<Part>, s: Space)
    requires 0 < s.blockSize <= ALIGN
  {
    var r := Resolve(parts, |parts|, s);
    r.err == Success && Shared(parts, r, |parts|, s) && LaidOut(r.parts, after, s.MinOffset())
  }

  lemma PercentagesRecoverable(cfg: Config, v0: seq<Sector>, parts: seq<Part>, shift: nat)
    requires Supported(shift) && LargeEnough(shift, |v0|) && BackupSector(shift, |v0|) - FirstSector(shift) >= 100
    requires Percentages(parts) && AllPresentable(cfg, v0, parts) && |parts| <= ITEMS
    ensures var v := Validated(parts, GptSpace(shift, |v0|));
            && v.Done? && v.err == Resolve(parts, |parts|, GptSpace(shift, |v0|)).err
            && (v.err == Success ==>
                  SharedOut(parts, v.parts, GptSpace(shift, |v0|)) && Recoverable(cfg, v0, v.parts, shift))
  {
    var s := GptSpace(shift, |v0|);
    var r, v := Resolve(parts, |parts|, s), Validated(parts, s);
    GptSpaceFacts(shift, |v0|);
    PercentageLayout(parts, s);
    PercentagesFormat(parts, shift, |v0|, UsableEnd(shift, |v0|));
    if v.err == Success {
      StartsReadable(v.parts, shift, |v0|);
      SharesComeBack(cfg, v0, parts, r, v.parts, s, s.MinOffset(), shift);
    }
  }

  /** Shares a drive out in percentages and lists its partitions: if the shares fit, the partitions come one behind
      the other, each but the last with its percentage rounded up to whole units, and the scan finds exactly them. */
  method ShareOutAndScanGpt(dev: BlockDevice, table: array<Part>, diskGuid: Guid, generated: Guid, signedChar: bool,
                         cfg: Config)
    returns (err: Error, parts: seq<Part>, ok: bool)
    requires dev.Valid() && InBounds(dev.slots, |dev.view|) && table !in dev.Parts && 1 <= table.Length <= ITEMS
    requires Supported(dev.sectorSizeShift) && LargeEnough(dev.sectorSizeShift, |dev.view|)
    requires BackupSector(dev.sectorSizeShift, |dev.view|) - FirstSector(dev.sectorSizeShift) >= 100
    requires Percentages(table[..]) && AllPresentable(cfg, dev.view, table[..])
    modifies dev`medium, dev`faults, dev`rawReads, dev`rawWrites, dev`slots, dev`view, dev`past, dev.Parts, table
    modifies dev`rawSyncs, dev`syncedWrites
    ensures dev.Valid() && dev.faults >= old(dev.faults)
    ensures dev.faults == old(dev.faults) ==>
              var s := GptSpace(dev.sectorSizeShift, |old(dev.view)|);
              && err == Resolve(old(table[..]), table.Length, s).err
              && (err == Success ==> SharedOut(old(table[..]), table[..], s) && ok && parts == Named(cfg, table[..]))
  {
    PercentagesRecoverable(cfg, dev.view, table[..], dev.sectorSizeShift);
    var hangs;
    err, hangs, parts, ok := FormatAndScanGpt(dev, table, diskGuid, generated, signedChar, cfg);
  }

  // MBR

  /** Validation changes sizes and offsets, and nothing else. */
  ghost predicate SameInfos(before: seq<Part>, after: seq<Part>) {
    |after| == |before| && forall i | 0 <= i < |before| :: after[i].info == before[i].info
  }

  lemma {:induction false} ResolveInfos(parts: seq<Part>, n: nat, s: Space)
    requires n <= |parts| && 0 < s.blockSize <= ALIGN
    ensures SameInfos(parts, Resolve(parts, n, s).parts)
  {
    if n == 0 {
    } else {
      ResolveInfos(parts, n - 1, s);
    }
  }

  lemma ValidatedInfos(parts: seq<Part>, s: Space)
    requires s.blockSize <= ALIGN && Validated(parts, s).Done?
    ensures SameInfos(parts, Validated(parts, s).parts)
  {
    if s.first > 0 && s.blockSize > 0 {
      var r := Resolve(parts, |parts|, s);
      ValidatedSteps(parts, s, r);
      ResolveInfos(parts, |parts|, s);
      SettleKeeps(r.parts, s.MinOffset(), s.MaxOffset());
    }
  }

  lemma {:induction false} NamedSame(cfg: Config, parts: seq<Part>)
    requires forall i | 0 <= i < |parts| :: parts[i].info.name != []
    ensures Named(cfg, parts) == parts
  {
    if parts == [] {
    } else {
      NamedSame(cfg, parts[1..]);
    }
  }

  /** Each partition can be recognised again, and the first does not announce a GPT. */
  ghost predicate MbrRecoverable(cfg: Config, v: seq<Sector>, parts: seq<Part>, shift: nat) {
    && 1 <= |parts| <= 4 && parts[0].info.sysind != OS_GPT && MbrRoundTrip.AllReturn(cfg, v, parts, shift)
  }

  /** The boot record that an MBR for the table would have. */
  ghost function BootFor(parts: seq<Part>, shift: nat, drive: nat): Sector
    requires Supported(shift)
  {
    MbrFormat.BootSector(parts, shift, MbrFormat.HeadsFor(drive))
  }

  lemma ScanOfBootSector(cfg: Config, v0: seq<Sector>, v: seq<Sector>, parts: seq<Part>, shift: nat)
    requires Supported(shift) && Uniform(v0, Pow2(shift)) && |v0| > 0 && 1 <= |parts| <= 4
    requires v == v0[0 := BootFor(parts, shift, |v0|)] && Scannable(v, shift)
    ensures var l, found := Scan(cfg, v, shift), MbrRoundTrip.AllRenamed(parts);
            l.ok && Named(cfg, l.parts) == found <==> MbrRecoverable(cfg, v0, parts, shift)
  {
    var heads, l, found := MbrFormat.HeadsFor(|v0|), Scan(cfg, v, shift), MbrRoundTrip.AllRenamed(parts);
    NamedSame(cfg, found);
    MbrRoundTrip.FormatThenScan(cfg, v0, parts, shift, heads);
    if l.ok && Named(cfg, l.parts) == found {
      MbrRoundTrip.BootSectorScans(cfg, v, parts, shift, heads);
      ListedAsNamed(cfg, v, parts, shift);
    }
  }

  /** Names that count are given by the scan, not by what comes after it. */
  lemma ListedAsNamed(cfg: Config, v: seq<Sector>, parts: seq<Part>, shift: nat)
    requires Supported(shift) && Scannable(v, shift) && |v| > 0 && |v[0]| >= MBR_SIZE && parts != []
    requires Identify(cfg, v[0]) == None && Signed(v[0]) && (Protective(v[0]) ==> parts[0].info.sysind == OS_GPT)
    requires Scan(cfg, v, shift).ok && Named(cfg, Scan(cfg, v, shift).parts) == MbrRoundTrip.AllRenamed(parts)
    ensures Scan(cfg, v, shift).parts == MbrRoundTrip.AllRenamed(parts)
  {
    var l := Scan(cfg, v, shift);
    if Protective(v[0]) {
      var h := HeaderOf(v);
      MbrRoundTrip.GptIndicators(cfg, v, shift, h.value.lba, h.value.num, 0);
      NamedAt(cfg, l.parts, 0);
    } else {
      MbrRoundTrip.NeverExtended(cfg, v, shift, Records(v[0], 0, 4), 0, 0, Rounds(v, 0));
      NamedSame(cfg, l.parts);
    }
  }

  /** Lists the partitions of a disk that held v0 before its first sector was written. */
  method ScanMbr(dev: BlockDevice, cfg: Config, ghost v0: seq<Sector>, ghost table: seq<Part>)
    returns (parts: seq<Part>, ok: bool)
    requires dev.Valid() && InBounds(dev.slots, |dev.view|) && Supported(dev.sectorSizeShift)
    requires Uniform(v0, dev.sectorSize) && |v0| > 0 && 1 <= |table| <= 4
    requires dev.view == v0[0 := BootFor(table, dev.sectorSizeShift, |v0|)] && Scannable(dev.view, dev.sectorSizeShift)
    modifies dev`medium, dev`faults, dev`rawReads, dev`rawWrites, dev`slots, dev.Parts
    ensures dev.Valid() && dev.faults >= old(dev.faults)
    ensures dev.faults == old(dev.faults) ==>
              (ok && parts == MbrRoundTrip.AllRenamed(table) <==> MbrRecoverable(cfg, v0, table, dev.sectorSizeShift))
  {
    ScanOfBootSector(cfg, v0, dev.view, table, dev.sectorSizeShift);
    parts, ok := ScanPartitions(dev, cfg);
  }

  /** What is on the disk once the table is formatted can be scanned to the end, wherever extended partitions lead. */
  ghost predicate MbrScannable(v: seq<Sector>, table: seq<Part>, shift: nat)
    requires Supported(shift)
  {
    var r := Validated(table, MbrFormat.MbrSpace(shift, |v|));
    r.Done? && r.err == Success && |v| > 0 && |table| <= 4 ==> Scannable(v[0 := BootFor(r.parts, shift, |v|)], shift)
  }

  /** So it is if there are none. */
  lemma NoneExtendedScannable(v: seq<Sector>, table: seq<Part>, shift: nat)
    requires Supported(shift) && Uniform(v, Pow2(shift)) && MbrRoundTrip.NoneExtended(table)
    ensures MbrScannable(v, table, shift)
  {
    var s := MbrFormat.MbrSpace(shift, |v|);
    var r := Validated(table, s);
    if r.Done? && r.err == Success && |v| > 0 && |table| <= 4 {
      ValidatedInfos(table, s);
      var boot, heads := BootFor(r.parts, shift, |v|), MbrFormat.HeadsFor(|v|);
      MbrRoundTrip.BootSectorScannable(v[0 := boot], r.parts, shift, heads);
    }
  }

  /** Formats a disk with an MBR and, if that succeeds, lists its partitions: they are those of the validated table,
      with names that count, if and only if that table is recoverable. */
  method FormatAndScanMbr(dev: BlockDevice, table: array<Part>, cfg: Config)
    returns (err: Error, hangs: bool, parts: seq<Part>, ok: bool)
    requires dev.Valid() && table !in dev.Parts && Supported(dev.sectorSizeShift) && |dev.view| > 0
    requires MbrScannable(dev.view, table[..], dev.sectorSizeShift)
    modifies dev`medium, dev`faults, dev`rawReads, dev`rawWrites, dev`slots, dev`view, dev`past, dev.Parts, table
    modifies dev`rawSyncs, dev`syncedWrites
    ensures dev.Valid() && dev.faults >= old(dev.faults)
    ensures table.Length == 0 || table.Length > 4 ==> err == BadParam && !hangs && table[..] == old(table[..])
    ensures 1 <= table.Length <= 4 ==>
              Judged(Validated(old(table[..]), MbrFormat.MbrSpace(dev.sectorSizeShift, |old(dev.view)|)),
                     err, hangs, table[..],
                     dev.faults == old(dev.faults) && InBounds(old(dev.slots), |old(dev.view)|))
    ensures err == Success && !hangs && dev.faults == old(dev.faults) ==>
              (ok && parts == MbrRoundTrip.AllRenamed(table[..]) <==>
                 MbrRecoverable(cfg, old(dev.view), table[..], dev.sectorSizeShift))
  {
    ghost var v0, shift := dev.view, dev.sectorSizeShift;
    parts, ok := [], false;
    OneSectorFits(v0, shift);
    err, hangs := MbrFormat.FormatDisk(dev, table, dev.sectorSizeShift);
    if err != Success || hangs {
      return;
    }
    parts, ok := ScanMbr(dev, cfg, v0, table[..]);
  }

  lemma OneSectorFits(v: seq<Sector>, shift: nat)
    requires Uniform(v, Pow2(shift)) && |v| > 0
    ensures Pow2(shift) <= |Flat(v)|
  {
    FlatLength(v, Pow2(shift));
    MulMonotone(Pow2(shift), 1, |v|);
  }

  // Percentages on a drive of at most 4 GiB

  /** A drive with an MBR of which every byte has an address of 32 bits, and with at
      least 100 sectors to give away. */
  ghost predicate SmallDrive(shift: nat, drive: nat) {
    Supported(shift) && FirstSector(shift) + 100 <= drive && drive * Pow2(shift) <= U32
  }

  lemma SmallDriveFits(drive: nat, u: nat)
    requires drive * u <= U32 && u > 1
    ensures drive < U32
  {
    if drive >= U32 {
      MulMonotone(u, U32, drive);
    }
  }

  /** The space given to validation is the drive from 1 MiB on. */
  lemma MbrSpaceFacts(shift: nat, drive: nat)
    requires SmallDrive(shift, drive)
    ensures drive < U32
    ensures var s := MbrFormat.MbrSpace(shift, drive);
            && Roomy(s) && s.total >= 100 && (s.first * s.blockSize) % ALIGN == 0
            && s.MinOffset() == ALIGN && s.MaxOffset() + 1 == drive * Pow2(shift)
  {
    FirstSectorFacts(shift);
    SectorSizes(shift);
    SmallDriveFits(drive, Pow2(shift));
    var s, u := MbrFormat.MbrSpace(shift, drive), Pow2(shift);
    SpaceInBytes(s, u);
    SpaceLimits(s, u, drive);
  }

  /** The number of sectors of what starts and ends with a sector. */
  lemma SectorSpan(start: nat, end: nat, shift: nat) returns (a: nat, n: nat)
    requires 0 < start < end && Mask(start, shift) == Mask(end, shift) == 0
    ensures Shift(start, shift) == a > 0 && Shift(end - start, shift) == n > 0 && Mask(end - start, shift) == 0
    ensures start == a * Pow2(shift) && end - start == n * Pow2(shift)
  {
    var u := Pow2(shift);
    ShiftAndMask(start, shift);
    ShiftAndMask(end, shift);
    a := Shift(start, shift);
    var b := Shift(end, shift);
    if b <= a {
      MulMonotone(u, b, a);
    }
    n := b - a;
    Difference(u, b, a);
    ShiftAndMaskUnique(end - start, shift, n, 0);
  }

  /** A partition on whole sectors of a small drive without volumes comes back. */
  lemma SmallReturns(cfg: Config, v: seq<Sector>, p: Part, shift: nat, start: nat, end: nat, limit: nat)
    requires SmallDrive(shift, |v|) && NoVolumes(cfg, v) && p.info.sysind != OS_EXTENDED
    requires limit == |v| * Pow2(shift) && 0 < p.offset == start < end == p.offset + p.size <= limit
    requires Mask(start, shift) == Mask(end, shift) == 0
    ensures MbrRoundTrip.Returns(cfg, v, p, shift)
  {
    var a, n := SectorSpan(start, end, shift);
    SmallSectors(shift, |v|, start, end, a, n, limit);
    ReturnsAt(cfg, v, p, shift, a, n);
  }

  lemma ReturnsAt(cfg: Config, v: seq<Sector>, p: Part, shift: nat, a: nat, n: nat)
    requires NoVolumes(cfg, v) && p.info.sysind != OS_EXTENDED && p.offset < U32 && p.size < U32
    requires Shift(p.offset, shift) == a && 0 < a < |v| && Shift(p.size, shift) == n > 0 && a < U32 && n < U32
    requires Mask(p.offset, shift) == Mask(p.size, shift) == 0
    ensures MbrRoundTrip.Returns(cfg, v, p, shift)
  {
  }

  lemma SmallSectors(shift: nat, drive: nat, start: nat, end: nat, a: nat, n: nat, limit: nat)
    requires SmallDrive(shift, drive) && limit == drive * Pow2(shift) && 0 < start < end <= limit
    requires start == a * Pow2(shift) && end - start == n * Pow2(shift)
    ensures a < drive && a < U32 && n < U32 && start < U32 && end - start < U32
  {
    GptRoundTrip.QuotientBelow(start, a, Pow2(shift), drive);
    LessThanBytes(a, Pow2(shift), start);
    LessThanBytes(n, Pow2(shift), end - start);
  }

  lemma LessThanBytes(n: nat, u: nat, size: nat)
    requires size == n * u && u > 0
    ensures n <= size
  {
    MulMonotone(n, 1, u);
  }

  lemma PlaceReturns(cfg: Config, v: seq<Sector>, parts: seq<Part>, after: seq<Part>, minOffset: nat, shift: nat,
                     i: nat, limit: nat)
    requires SmallDrive(shift, |v|) && NoVolumes(cfg, v) && limit == |v| * Pow2(shift) && minOffset > 0
    requires OnSectors(parts, minOffset, shift) && LaidOut(parts, after, minOffset) && i < |parts|
    requires after[i].info.sysind != OS_EXTENDED && 0 < after[i].size && after[i].offset + after[i].size <= limit
    ensures MbrRoundTrip.Returns(cfg, v, after[i], shift)
  {
    PlaceOf(parts, after, minOffset, i);
    var start := SectorAt(parts, minOffset, shift, i);
    var end := SectorAt(parts, minOffset, shift, i + 1);
    SmallReturns(cfg, v, after[i], shift, start, end, limit);
  }

  lemma AllReturnSmall(cfg: Config, v: seq<Sector>, parts: seq<Part>, after: seq<Part>, minOffset: nat, shift: nat,
                       limit: nat)
    requires SmallDrive(shift, |v|) && NoVolumes(cfg, v) && limit == |v| * Pow2(shift) && minOffset > 0
    requires OnSectors(parts, minOffset, shift) && LaidOut(parts, after, minOffset)
    requires MbrRoundTrip.NoneExtended(after) && Sound(after, minOffset, limit)
    ensures MbrRoundTrip.AllReturn(cfg, v, after, shift)
  {
    forall i | 0 <= i < |after| ensures MbrRoundTrip.Returns(cfg, v, after[i], shift) {
      assert InPlace(EntryAt(after, i), minOffset, limit);
      PlaceReturns(cfg, v, parts, after, minOffset, shift, i, limit);
    }
  }

  lemma {:induction false} SharesReturn(cfg: Config, v0: seq<Sector>, parts: seq<Part>, shift: nat)
    requires SmallDrive(shift, |v0|) && NoVolumes(cfg, v0) && Percentages(parts) && MbrRoundTrip.NoneExtended(parts)
    requires 1 <= |parts| <= 4 && parts[0].info.sysind != OS_GPT
    ensures var s := MbrFormat.MbrSpace(shift, |v0|);
            var v := Validated(parts, s);
            && v.Done? && v.err == Resolve(parts, |parts|, s).err
            && (v.err == Success ==> SharedOut(parts, v.parts, s) && MbrRecoverable(cfg, v0, v.parts, shift))
  {
    var s := MbrFormat.MbrSpace(shift, |v0|);
    var r, v := Resolve(parts, |parts|, s), Validated(parts, s);
    MbrSpaceFacts(shift, |v0|);
    PercentageLayout(parts, s);
    PercentagesSound(parts, s);
    if v.err == Success {
      ValidatedInfos(parts, s);
      SumsAreSectors(parts, r, s, s.MinOffset(), shift);
      AllReturnSmall(cfg, v0, r.parts, v.parts, s.MinOffset(), shift, s.MaxOffset() + 1);
    }
  }

  /** Shares a small drive out in percentages and lists its partitions: the scan finds exactly them. */
  method ShareOutAndScanMbr(dev: BlockDevice, table: array<Part>, cfg: Config)
    returns (err: Error, parts: seq<Part>, ok: bool)
    requires dev.Valid() && InBounds(dev.slots, |dev.view|) && table !in dev.Parts
    requires SmallDrive(dev.sectorSizeShift, |dev.view|) && NoVolumes(cfg, dev.view)
    requires 1 <= table.Length <= 4 && Percentages(table[..]) && MbrRoundTrip.NoneExtended(table[..])
    requires table[0].info.sysind != OS_GPT
    modifies dev`medium, dev`faults, dev`rawReads, dev`rawWrites, dev`slots, dev`view, dev`past, dev.Parts, table
    modifies dev`rawSyncs, dev`syncedWrites
    ensures dev.Valid() && dev.faults >= old(dev.faults)
    ensures dev.faults == old(dev.faults) ==>
              var s := MbrFormat.MbrSpace(dev.sectorSizeShift, |old(dev.view)|);
              && err == Resolve(old(table[..]), table.Length, s).err
              && (err == Success ==>
                    SharedOut(old(table[..]), table[..], s) && ok && parts == MbrRoundTrip.AllRenamed(table[..]))
  {
    SharesReturn(cfg, dev.view, table[..], dev.sectorSizeShift);
    NoneExtendedScannable(dev.view, table[..], dev.sectorSizeShift);
    var hangs;
    err, hangs, parts, ok := FormatAndScanMbr(dev, table, cfg);
  }
}
