/** Partitioning a disk with a GPT and scanning it again. */
module GptRoundTrip {
  import opened Bits
  import opened Bytes
  import opened Sectors
  import opened PartInfos
  import opened PlacementSafety
  import opened Validation
  import opened GptLayout
  import opened MbrLayout
  import opened GptImage
  import opened GptFacts
  import opened ScanSpec

  // One partition

  /** When a partition is found again as it was: it has a type, its name fits, its ends are sectors, and its first
      sector is not looked at, or can be read and is no volume of another size. */
  predicate ComesBack(cfg: Config, v: seq<Sector>, p: Part, shift: nat) {
    var start := StartLba(p, shift);
    && p.info.typeGuid != NO_GUID && p.info.sysind == 0
    && |p.info.name| <= NAME_LENGTH && 0 !in p.info.name
    && Mask(p.offset, shift) == 0
    && (cfg.known(p.info.typeGuid) || start < |v|)
    && (if !cfg.known(p.info.typeGuid) && Identify(cfg, v[start]).Some?
        then Identify(cfg, v[start]).value.size == p.size
        else Mask(p.offset + p.size, shift) == 0)
  }

  /** The entry of a partition is seen as that partition in exactly that case. */
  lemma EntrySeen(cfg: Config, v: seq<Sector>, p: Part, shift: nat, e: Entry)
    requires p.offset + p.size < WORD && StartLba(p, shift) > 0
    requires e == Entry(p.info.typeGuid, p.info.uniqueGuid, StartLba(p, shift), EndLba(p, shift),
              Cut(p.info.name, NAME_LENGTH))
    ensures !Skipped(cfg, v, e, shift) && GptPart(cfg, v, e, shift) == p <==> ComesBack(cfg, v, p, shift)
  {
    EntryPlace(p, shift, e);
    CutFacts(p.info.name, NAME_LENGTH);
    ShiftAndMask(p.offset, shift);
    WrappedSmall(e.start, shift);
  }

  lemma EntryComesBack(cfg: Config, v: seq<Sector>, p: Part, shift: nat, signedChar: bool)
    requires p.offset + p.size < WORD && StartLba(p, shift) > 0
    ensures var e := ReadEntry(EntryBytes(p, shift, signedChar));
            !Skipped(cfg, v, e, shift) && GptPart(cfg, v, e, shift) == p <==> ComesBack(cfg, v, p, shift)
  {
    var e := ReadEntry(EntryBytes(p, shift, signedChar));
    EntryFields(p, shift, signedChar);
    EntrySeen(cfg, v, p, shift, e);
  }

  // The table

  lemma RowOf(k: nat, per: nat, n: nat)
    requires per > 0 && k < n * per
    ensures k / per < n && (k / per) * per + k % per == k
  {
    if k / per >= n {
      MulMonotone(per, n, k / per);
    }
  }

  /** The k-th cell in its row. */
  lemma CellInRow(cells: seq<seq<byte>>, per: nat, n: nat, k: nat) returns (q: nat, at: nat)
    requires per > 0 && k < n * per && n * per <= |cells| && Uniform(cells, ENTRY_SIZE)
    ensures q == k / per < n && at == (k % per) * ENTRY_SIZE
    ensures var row := Row(cells, per, n, q);
            |row| == per * ENTRY_SIZE && at + ENTRY_SIZE <= |row| && row[at..at + ENTRY_SIZE] == cells[k]
  {
    q, at := k / per, (k % per) * ENTRY_SIZE;
    RowOf(k, per, n);
    RowInRange(q, per, n, |cells|);
    CellOfRun(cells, q * per, per, k % per);
  }

  /** The sector of entry k, and what it holds there. */
  ghost predicate EntryThere(v: seq<Sector>, lba: nat, k: nat, shift: nat, cell: seq<byte>)
    requires Supported(shift) && Uniform(v, Pow2(shift)) && |cell| == ENTRY_SIZE
  {
    EntrySector(lba, k, shift) < |v| && EntryIn(v[EntrySector(lba, k, shift)], k, shift) == ReadEntry(cell)
  }

  lemma EntrySectorIs(k: nat, shift: nat)
    requires Supported(shift) && k < ITEMS
    ensures PerSector(shift) > 0 && EntrySector(2, k, shift) == 2 + k / PerSector(shift)
  {
    GeometryFacts(shift);
    QuotientSmall(k, PerSector(shift));
    SmallLba(2 + k / PerSector(shift), Pow2(shift));
    WrappedSmall(2 + k / PerSector(shift), shift);
  }

  lemma QuotientSmall(k: nat, per: nat)
    requires per > 0
    ensures 0 <= k / per <= k
  {
    var q := k / per;
    assert k == per * q + k % per;
    if q > k {
      MulMonotone(per, k + 1, q);
      MulMonotone(k + 1, 1, per);
    }
  }

  lemma TableEntry(v: seq<Sector>, t: seq<Sector>, cells: seq<seq<byte>>, shift: nat, k: nat)
    requires Supported(shift) && Uniform(v, Pow2(shift)) && Uniform(cells, ENTRY_SIZE) && k < |cells| == ITEMS
    requires |t| * PerSector(shift) == ITEMS && t == Rows(cells, PerSector(shift), |t|)
    requires 2 + |t| <= |v| && v[2..2 + |t|] == t
    ensures EntryThere(v, 2, k, shift, cells[k])
  {
    EntrySectorIs(k, shift);
    var q, at := CellInRow(cells, PerSector(shift), |t|, k);
    assert v[2 + q] == v[2..2 + |t|][q];
  }

  lemma SmallLba(lba: nat, p: nat)
    requires lba < U32 && p <= MAX_SECTOR_SIZE
    ensures lba * p < WORD
  {
    MulMonotone(lba, p, MAX_SECTOR_SIZE);
  }

  /** What a table of these cells gives, from the k-th on. */
  function FromCells(cfg: Config, v: seq<Sector>, shift: nat, cells: seq<seq<byte>>, k: nat): seq<Part>
    requires forall i | 0 <= i < |cells| :: |cells[i]| == ENTRY_SIZE
    decreases |cells| - k
  {
    if k >= |cells| then []
    else
      var e, rest := ReadEntry(cells[k]), FromCells(cfg, v, shift, cells, k + 1);
      if Skipped(cfg, v, e, shift) then rest else [GptPart(cfg, v, e, shift)] + rest
  }

  lemma {:induction false} GptFromCells(cfg: Config, v: seq<Sector>, shift: nat, lba: nat, cells: seq<seq<byte>>,
                                        k: nat)
    requires Supported(shift) && Uniform(v, Pow2(shift)) && Uniform(cells, ENTRY_SIZE)
    requires forall i | 0 <= i < |cells| :: EntryThere(v, lba, i, shift, cells[i])
    ensures GptFrom(cfg, v, shift, lba, |cells|, k) == Listing(FromCells(cfg, v, shift, cells, k), true)
    decreases |cells| - k
  {
    if k < |cells| {
      assert EntryThere(v, lba, k, shift, cells[k]);
      GptFromCells(cfg, v, shift, lba, cells, k + 1);
    }
  }

  /** No partition starts in the first sector or reaches the end of the address space. */
  ghost predicate Addressable(parts: seq<Part>, shift: nat) {
    forall i | 0 <= i < |parts| :: parts[i].offset + parts[i].size < WORD && StartLba(parts[i], shift) > 0
  }

  ghost predicate AllComeBack(cfg: Config, v: seq<Sector>, parts: seq<Part>, shift: nat) {
    forall i | 0 <= i < |parts| :: ComesBack(cfg, v, parts[i], shift)
  }

  lemma EmptyEntry()
    ensures ReadEntry(Zeros(ENTRY_SIZE)).typeGuid == NO_GUID
  {
    assert Zeros(ENTRY_SIZE)[0..16] == NO_GUID;
  }

  /** A table gives no more partitions than were written. */
  lemma {:induction false} CellsGiveMost(cfg: Config, v: seq<Sector>, parts: seq<Part>, shift: nat, signedChar: bool,
                                         k: nat)
    requires k <= ITEMS
    ensures var found := FromCells(cfg, v, shift, Cells(parts, shift, signedChar), k);
            |found| <= ITEMS - k && |found| <= if k < |parts| then |parts| - k else 0
    decreases ITEMS - k
  {
    if k < ITEMS {
      CellsGiveMost(cfg, v, parts, shift, signedChar, k + 1);
      EmptyEntry();
    }
  }

  lemma UsedCell(cfg: Config, v: seq<Sector>, parts: seq<Part>, shift: nat, signedChar: bool, k: nat)
    requires k < |parts| <= ITEMS && Addressable(parts, shift) && AllComeBack(cfg, v, parts, shift)
    ensures var cells := Cells(parts, shift, signedChar);
            FromCells(cfg, v, shift, cells, k) == [parts[k]] + FromCells(cfg, v, shift, cells, k + 1)
  {
    assert ComesBack(cfg, v, parts[k], shift);
    EntryComesBack(cfg, v, parts[k], shift, signedChar);
    assert Cells(parts, shift, signedChar)[k] == EntryBytes(parts[k], shift, signedChar);
  }

  lemma UnusedCell(cfg: Config, v: seq<Sector>, parts: seq<Part>, shift: nat, signedChar: bool, k: nat)
    requires |parts| <= k < ITEMS
    ensures var cells := Cells(parts, shift, signedChar);
            FromCells(cfg, v, shift, cells, k) == FromCells(cfg, v, shift, cells, k + 1)
  {
    EmptyEntry();
    assert Cells(parts, shift, signedChar)[k] == Zeros(ENTRY_SIZE);
  }

  lemma {:induction false} CellsGive(cfg: Config, v: seq<Sector>, parts: seq<Part>, shift: nat, signedChar: bool,
                                     k: nat)
    requires |parts| <= ITEMS && Addressable(parts, shift) && AllComeBack(cfg, v, parts, shift)
    ensures FromCells(cfg, v, shift, Cells(parts, shift, signedChar), k) == if k < |parts| then parts[k..] else []
    decreases ITEMS - k
  {
    if k < ITEMS {
      CellsGive(cfg, v, parts, shift, signedChar, k + 1);
      if k < |parts| {
        UsedCell(cfg, v, parts, shift, signedChar, k);
      } else {
        UnusedCell(cfg, v, parts, shift, signedChar, k);
      }
    }
  }

  lemma FirstGiven(cfg: Config, v: seq<Sector>, parts: seq<Part>, shift: nat, signedChar: bool, k: nat)
    requires k < |parts| <= ITEMS
    requires FromCells(cfg, v, shift, Cells(parts, shift, signedChar), k) == parts[k..]
    ensures var e := ReadEntry(EntryBytes(parts[k], shift, signedChar));
            !Skipped(cfg, v, e, shift) && GptPart(cfg, v, e, shift) == parts[k]
    ensures FromCells(cfg, v, shift, Cells(parts, shift, signedChar), k + 1) == parts[k + 1..]
  {
    var cells := Cells(parts, shift, signedChar);
    var rest := FromCells(cfg, v, shift, cells, k + 1);
    CellsGiveMost(cfg, v, parts, shift, signedChar, k + 1);
    assert cells[k] == EntryBytes(parts[k], shift, signedChar);
    assert parts[k..][1..] == parts[k + 1..];
    assert ([parts[k]] + rest)[1..] == rest;
  }

  /** If the table gives what was written, nothing was skipped, and every partition has come back. */
  lemma {:induction false} CellsGiveOnly(cfg: Config, v: seq<Sector>, parts: seq<Part>, shift: nat, signedChar: bool,
                                         k: nat)
    requires k <= |parts| <= ITEMS && Addressable(parts, shift)
    requires FromCells(cfg, v, shift, Cells(parts, shift, signedChar), k) == parts[k..]
    ensures forall i | k <= i < |parts| :: ComesBack(cfg, v, parts[i], shift)
    decreases |parts| - k
  {
    if k < |parts| {
      FirstGiven(cfg, v, parts, shift, signedChar, k);
      EntryComesBack(cfg, v, parts[k], shift, signedChar);
      CellsGiveOnly(cfg, v, parts, shift, signedChar, k + 1);
    }
  }

  /** The table gives exactly what was written if and only if there was room for it and every partition comes back. */
  lemma CellsGiveExactly(cfg: Config, v: seq<Sector>, parts: seq<Part>, shift: nat, signedChar: bool)
    requires Addressable(parts, shift)
    ensures FromCells(cfg, v, shift, Cells(parts, shift, signedChar), 0) == parts <==>
            |parts| <= ITEMS && AllComeBack(cfg, v, parts, shift)
  {
    CellsGiveMost(cfg, v, parts, shift, signedChar, 0);
    assert parts[0..] == parts;
    if FromCells(cfg, v, shift, Cells(parts, shift, signedChar), 0) == parts {
      CellsGiveOnly(cfg, v, parts, shift, signedChar, 0);
    }
    if |parts| <= ITEMS && AllComeBack(cfg, v, parts, shift) {
      CellsGive(cfg, v, parts, shift, signedChar, 0);
    }
  }

  /** What the scan makes of the frame around the table. */
  lemma ImageScans(cfg: Config, v0: seq<Sector>, v: seq<Sector>, t: seq<Sector>, backup: nat, drive: nat,
                   mbrRest: seq<byte>, first: Sector, second: Sector, shift: nat)
    requires Supported(shift) && Uniform(v, Pow2(shift)) && drive > 0 && HeadersOk(v, |t|, backup)
    requires Image(v0, v, t, backup, MbrBytes([ProtectiveRecord(drive)]) + mbrRest, first, second)
    ensures Scannable(v, shift) && Scan(cfg, v, shift) == GptFrom(cfg, v, shift, 2, ITEMS, 0)
  {
    var recs := [ProtectiveRecord(drive)];
    LongEnough(v, shift);
    BootRecordNoVolume(cfg, recs, mbrRest);
    SignatureRoundTrip(recs, mbrRest);
    RecordRoundTrip(recs, mbrRest, 0);
  }

  lemma ImageGives(cfg: Config, v0: seq<Sector>, v: seq<Sector>, t: seq<Sector>, backup: nat, mbr: Sector,
                   first: Sector, second: Sector, parts: seq<Part>, shift: nat, signedChar: bool)
    requires Supported(shift) && Uniform(v, Pow2(shift)) && Addressable(parts, shift)
    requires t == TableOf(parts, shift, signedChar) && Image(v0, v, t, backup, mbr, first, second)
    ensures GptFrom(cfg, v, shift, 2, ITEMS, 0) == Listing(parts, true) <==>
            |parts| <= ITEMS && AllComeBack(cfg, v, parts, shift)
  {
    GeometryFacts(shift);
    var cells := Cells(parts, shift, signedChar);
    forall k | 0 <= k < ITEMS ensures EntryThere(v, 2, k, shift, cells[k]) {
      TableEntry(v, t, cells, shift, k);
    }
    GptFromCells(cfg, v, shift, 2, cells, 0);
    CellsGiveExactly(cfg, v, parts, shift, signedChar);
  }

  lemma SameStart(cfg: Config, v0: seq<Sector>, v: seq<Sector>, p: Part, shift: nat, lo: nat, hi: nat)
    requires Supported(shift) && 0 < lo <= hi <= |v0| == |v| < U32 && v[lo..hi] == v0[lo..hi]
    requires lo * Pow2(shift) <= p.offset && p.size > 0 && p.offset + p.size <= hi * Pow2(shift)
    ensures p.offset + p.size < WORD && StartLba(p, shift) > 0
    ensures ComesBack(cfg, v, p, shift) <==> ComesBack(cfg, v0, p, shift)
  {
    GeometryFacts(shift);
    SmallLba(hi, Pow2(shift));
    StartWithin(p, shift, lo, hi, Pow2(shift));
    var s := StartLba(p, shift);
    assert v[lo..hi][s - lo] == v0[lo..hi][s - lo];
    assert v[s] == v0[s];
  }

  lemma StartWithin(p: Part, shift: nat, lo: nat, hi: nat, u: nat)
    requires u == Pow2(shift) && lo * u <= p.offset < hi * u
    ensures lo <= StartLba(p, shift) < hi
  {
    RoundsDown(p.offset, shift, lo, u);
    ShiftAndMask(p.offset, shift);
    QuotientBelow(p.offset, StartLba(p, shift), u, hi);
  }

  lemma QuotientBelow(x: nat, s: nat, u: nat, hi: nat)
    requires s * u <= x < hi * u
    ensures s < hi
  {
    if s >= hi {
      MulMonotone(u, hi, s);
    }
  }

  /** Whether partitions come back depends on nothing that formatting changes. */
  lemma SameStarts(cfg: Config, v0: seq<Sector>, v: seq<Sector>, parts: seq<Part>, shift: nat, lo: nat, hi: nat,
                   minOffset: nat, limit: nat)
    requires Supported(shift) && 0 < lo <= hi <= |v0| == |v| < U32 && v[lo..hi] == v0[lo..hi]
    requires minOffset == lo * Pow2(shift) && limit == hi * Pow2(shift) && Sound(parts, minOffset, limit)
    ensures Addressable(parts, shift)
    ensures AllComeBack(cfg, v, parts, shift) <==> AllComeBack(cfg, v0, parts, shift)
  {
    forall i | 0 <= i < |parts|
      ensures parts[i].offset + parts[i].size < WORD && StartLba(parts[i], shift) > 0
      ensures ComesBack(cfg, v, parts[i], shift) <==> ComesBack(cfg, v0, parts[i], shift) {
      assert InPlace(EntryAt(parts, i), minOffset, limit);
      SameStart(cfg, v0, v, parts[i], shift, lo, hi);
    }
  }

  lemma FormattedStarts(cfg: Config, v0: seq<Sector>, parts: seq<Part>, shift: nat, guid: Guid, signedChar: bool,
                        limit: nat)
    requires Supported(shift) && LargeEnough(shift, |v0|)
    requires limit == BackupSector(shift, |v0|) * Pow2(shift) && Sound(parts, ALIGN, limit)
    ensures Addressable(parts, shift)
    ensures AllComeBack(cfg, FormattedDisk(v0, parts, shift, guid, signedChar), parts, shift) <==>
            AllComeBack(cfg, v0, parts, shift)
  {
    FirstSectorFacts(shift);
    var v := FormattedDisk(v0, parts, shift, guid, signedChar);
    var t, backup, lo := TableOf(parts, shift, signedChar), BackupSector(shift, |v0|), FirstSector(shift);
    ImageKeeps(v0, v, t, backup, v[0], v[1], v[|v| - 1], lo);
    SameStarts(cfg, v0, v, parts, shift, lo, backup, ALIGN, limit);
  }

  lemma FormattedScans(cfg: Config, v0: seq<Sector>, parts: seq<Part>, shift: nat, guid: Guid, signedChar: bool)
    requires Supported(shift) && LargeEnough(shift, |v0|) && Uniform(v0, Pow2(shift))
    ensures var v := FormattedDisk(v0, parts, shift, guid, signedChar);
            Uniform(v, Pow2(shift)) && Scannable(v, shift) && Scan(cfg, v, shift) == GptFrom(cfg, v, shift, 2, ITEMS, 0)
  {
    FirstSectorFacts(shift);
    FormattedUniform(v0, parts, shift, guid, signedChar);
    ChecksumsAgree(v0, parts, shift, guid, signedChar);
    var v := FormattedDisk(v0, parts, shift, guid, signedChar);
    ImageScans(cfg, v0, v, TableOf(parts, shift, signedChar), BackupSector(shift, |v0|), |v0|,
               LeftOver(parts, MBR_SIZE, shift, signedChar), v[1], v[|v| - 1], shift);
  }

  /** Formatting a disk from a sound table and scanning it gives back the same partitions in the same order, and no
      error, if and only if there are at most 128 of them and each can be recognised. */
  lemma FormatThenScan(cfg: Config, v0: seq<Sector>, parts: seq<Part>, shift: nat, guid: Guid, signedChar: bool,
                       limit: nat)
    requires Supported(shift) && LargeEnough(shift, |v0|) && Uniform(v0, Pow2(shift))
    requires limit == BackupSector(shift, |v0|) * Pow2(shift) && Sound(parts, ALIGN, limit)
    ensures var v := FormattedDisk(v0, parts, shift, guid, signedChar);
            && Scannable(v, shift)
            && (Scan(cfg, v, shift) == Listing(parts, true) <==> |parts| <= ITEMS && AllComeBack(cfg, v0, parts, shift))
  {
    FormattedStarts(cfg, v0, parts, shift, guid, signedChar, limit);
    FormattedScans(cfg, v0, parts, shift, guid, signedChar);
    FirstSectorFacts(shift);
    var v := FormattedDisk(v0, parts, shift, guid, signedChar);
    ImageGives(cfg, v0, v, TableOf(parts, shift, signedChar), BackupSector(shift, |v0|), v[0], v[1], v[|v| - 1],
               parts, shift, signedChar);
  }
}
