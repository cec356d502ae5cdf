/** What a disk holds after it has been partitioned with a GPT: which sectors are written, and with what. */
module GptImage {
  import opened Bits
  import opened Bytes
  import opened Sectors
  import opened PartInfos
  import opened Crc32s
  import opened GptLayout
  import opened MbrLayout

  // Largest sector the build supports, and smallest sector there is.
  const MAX_SECTOR_SIZE: nat := 4096
  const MIN_SECTOR_SIZE: nat := 512

  predicate Supported(shift: nat) {
    9 <= shift <= 12
  }

  function PerSector(shift: nat): nat {
    Pow2(shift) / ENTRY_SIZE
  }

  function TableSectors(shift: nat): nat {
    Shift(ITEMS * ENTRY_SIZE, shift)
  }

  /** First sector that may be given to a partition. */
  function FirstSector(shift: nat): nat
    requires Supported(shift)
  {
    GeometryFacts(shift);
    AlignUp(2 + TableSectors(shift), Shift(ALIGN, shift))
  }

  function BackupSector(shift: nat, drive: nat): int {
    drive - TableSectors(shift) - 1
  }

  lemma GeometryFacts(shift: nat)
    requires Supported(shift)
    ensures TableSectors(shift) * PerSector(shift) == ITEMS && PerSector(shift) * ENTRY_SIZE == Pow2(shift)
    ensures 4 <= PerSector(shift) <= 32 && 4 <= TableSectors(shift) <= 32
    ensures Shift(ALIGN, shift) * Pow2(shift) == ALIGN && 256 <= Shift(ALIGN, shift) <= ALIGN
    ensures MIN_SECTOR_SIZE <= Pow2(shift) <= MAX_SECTOR_SIZE
  {
    match shift
    case 9 => GeometryAt(9, 512, 32, 2048);
    case 10 => GeometryAt(10, 1024, 16, 1024);
    case 11 => GeometryAt(11, 2048, 8, 512);
    case 12 => GeometryAt(12, 4096, 4, 256);
  }

  lemma GeometryAt(shift: nat, p: nat, n: nat, a: nat)
    requires Pow2(shift) == p && n * p == ITEMS * ENTRY_SIZE && a * p == ALIGN
    ensures TableSectors(shift) == n && Shift(ALIGN, shift) == a && PerSector(shift) == p / ENTRY_SIZE
  {
    ShiftAndMaskUnique(ITEMS * ENTRY_SIZE, shift, n, 0);
    ShiftAndMaskUnique(ALIGN, shift, a, 0);
  }

  lemma {:induction false} SupportedSizes(shift: nat)
    ensures Supported(shift) <==> MIN_SECTOR_SIZE <= Pow2(shift) <= MAX_SECTOR_SIZE
  {
    if shift > 12 {
      PowersGrow(13, shift);
      assert Pow2(13) == 8192;
    } else if shift < 9 {
      PowersGrow(shift, 8);
      assert Pow2(8) == 256;
    } else {
      GeometryFacts(shift);
    }
  }

  lemma {:induction false} PowersGrow(a: nat, b: nat)
    requires a <= b
    ensures Pow2(a) <= Pow2(b)
    decreases b
  {
    if a < b {
      PowersGrow(a, b - 1);
    }
  }

  lemma AlignUpToOne(v: nat, a: nat)
    requires 0 < v <= a <= ALIGN
    ensures AlignUp(v, a) == a
  {
    var w := v + a - 1;
    assert U64(w) == w;
    assert AlignDown(w - a, a) == 0;
  }

  /** Partitions start one alignment unit into the disk. */
  lemma FirstSectorFacts(shift: nat)
    requires Supported(shift)
    ensures FirstSector(shift) == Shift(ALIGN, shift) && FirstSector(shift) * Pow2(shift) == ALIGN
    ensures 2 + TableSectors(shift) <= FirstSector(shift)
  {
    GeometryFacts(shift);
    AlignUpToOne(2 + TableSectors(shift), Shift(ALIGN, shift));
  }

  /** Room for both tables and the alignment. The program does not check this. */
  predicate LargeEnough(shift: nat, drive: nat)
    requires Supported(shift)
  {
    FirstSector(shift) <= BackupSector(shift, drive) && drive < U32
  }

  function GptSpace(shift: nat, drive: nat): (s: Space)
    requires Supported(shift) && LargeEnough(shift, drive)
    ensures 0 < s.blockSize <= ALIGN
  {
    GeometryFacts(shift);
    Space(FirstSector(shift), BackupSector(shift, drive) - FirstSector(shift), Pow2(shift))
  }

  // The partition table

  function EntryCell(parts: seq<Part>, k: nat, shift: nat, signedChar: bool): (r: seq<byte>)
    ensures |r| == ENTRY_SIZE
  {
    if k < |parts| then EntryBytes(parts[k], shift, signedChar) else Zeros(ENTRY_SIZE)
  }

  /** The 128 entries of the table; those not used are zero. */
  function Cells(parts: seq<Part>, shift: nat, signedChar: bool): (cells: seq<seq<byte>>)
    ensures |cells| == ITEMS && Uniform(cells, ENTRY_SIZE)
    ensures forall k | 0 <= k < ITEMS :: cells[k] == EntryCell(parts, k, shift, signedChar)
  {
    seq(ITEMS, k requires 0 <= k < ITEMS => EntryCell(parts, k, shift, signedChar))
  }

  /** Cells from to from + n - 1, one behind the other. */
  function Run(cells: seq<seq<byte>>, from: nat, n: nat): seq<byte>
    requires from + n <= |cells|
  {
    Flat(cells[from..from + n])
  }

  lemma RunStep(cells: seq<seq<byte>>, from: nat, n: nat)
    requires from + n < |cells| && Uniform(cells, ENTRY_SIZE)
    ensures Run(cells, from, n + 1) == Run(cells, from, n) + cells[from + n]
    ensures |Run(cells, from, n)| == n * ENTRY_SIZE
  {
    FlatLength(cells[from..from + n], ENTRY_SIZE);
    assert cells[from..from + n + 1] == cells[from..from + n] + [cells[from + n]];
    FlatAppend(cells[from..from + n], [cells[from + n]]);
    FlatOne(cells[from + n]);
  }

  lemma CellOfRun(cells: seq<seq<byte>>, from: nat, n: nat, i: nat)
    requires from + n <= |cells| && Uniform(cells, ENTRY_SIZE) && i < n
    ensures |Run(cells, from, n)| == n * ENTRY_SIZE
    ensures Run(cells, from, n)[i * ENTRY_SIZE..i * ENTRY_SIZE + ENTRY_SIZE] == cells[from + i]
  {
    FlatLength(cells[from..from + n], ENTRY_SIZE);
    SliceOfSector(cells[from..from + n], ENTRY_SIZE, i, 0, ENTRY_SIZE);
    assert cells[from + i][0..ENTRY_SIZE] == cells[from + i];
  }

  lemma FlatOne(s: Sector)
    ensures Flat([s]) == s
  {
    assert [s][1..] == [];
    assert Flat([]) == [];
  }

  lemma RowInRange(r: nat, per: nat, n: nat, total: nat)
    requires r < n && n * per <= total
    ensures r * per + per <= total
  {
    ProductStep(per, r);
    MulMonotone(per, r + 1, n);
  }

  /** Sector r of a table of n sectors with per cells each. */
  function Row(cells: seq<seq<byte>>, per: nat, n: nat, r: nat): Sector
    requires r < n && n * per <= |cells|
  {
    RowInRange(r, per, n, |cells|);
    Run(cells, r * per, per)
  }

  function Rows(cells: seq<seq<byte>>, per: nat, n: nat): (t: seq<Sector>)
    requires n * per <= |cells|
    ensures |t| == n && forall r | 0 <= r < n :: t[r] == Row(cells, per, n, r)
  {
    seq(n, r requires 0 <= r < n => Row(cells, per, n, r))
  }

  /** The sectors of the table hold the cells in order. */
  lemma {:induction false} RowsFlat(cells: seq<seq<byte>>, per: nat, n: nat)
    requires n * per <= |cells|
    ensures Flat(Rows(cells, per, n)) == Flat(cells[..n * per])
  {
    if n == 0 {
      assert cells[..0 * per] == [];
    } else {
      var m, t := (n - 1) * per, Rows(cells, per, n);
      ProductStep(per, n - 1);
      MulMonotone(per, 0, n - 1);
      RowsFlat(cells, per, n - 1);
      assert t == Rows(cells, per, n - 1) + [t[n - 1]];
      FlatAppend(Rows(cells, per, n - 1), [t[n - 1]]);
      FlatOne(t[n - 1]);
      assert cells[..m + per] == cells[..m] + cells[m..m + per];
      FlatAppend(cells[..m], cells[m..m + per]);
    }
  }

  function TableOf(parts: seq<Part>, shift: nat, signedChar: bool): (t: seq<Sector>)
    requires Supported(shift)
    ensures |t| == TableSectors(shift)
  {
    GeometryFacts(shift);
    Rows(Cells(parts, shift, signedChar), PerSector(shift), TableSectors(shift))
  }

  // Headers

  /** The primary header without its own checksum. */
  function PlainHeader(parts: seq<Part>, shift: nat, drive: nat, guid: Guid, signedChar: bool): Header
    requires Supported(shift) && LargeEnough(shift, drive)
  {
    FirstSectorFacts(shift);
    Header(0, 1, drive - 1, 2 + TableSectors(shift), BackupSector(shift, drive) - 1, guid,
           2, ITEMS, ENTRY_SIZE, Checksum(Flat(Cells(parts, shift, signedChar))))
  }

  function FirstHeader(parts: seq<Part>, shift: nat, drive: nat, guid: Guid, signedChar: bool): Header
    requires Supported(shift) && LargeEnough(shift, drive)
  {
    Sealed(PlainHeader(parts, shift, drive, guid, signedChar))
  }

  /** The backup header: it is where the other one says it is, and knows its own copy of the table. */
  function SecondHeader(parts: seq<Part>, shift: nat, drive: nat, guid: Guid, signedChar: bool): Header
    requires Supported(shift) && LargeEnough(shift, drive)
  {
    FirstSectorFacts(shift);
    var h := PlainHeader(parts, shift, drive, guid, signedChar);
    Sealed(h.(myLba := h.alternateLba, alternateLba := h.myLba, entryLba := BackupSector(shift, drive)))
  }

  function ProtectiveRecord(drive: nat): Record
    requires drive > 0
  {
    Record(0, Chs(0, 2, 0), OS_GPT, Chs(255, 255, 255), 1, Min(0xFFFF_FFFF, drive - 1))
  }

  /** The last sector of the table. */
  function LastRow(parts: seq<Part>, shift: nat, signedChar: bool): (r: Sector)
    requires Supported(shift)
    ensures |r| == Pow2(shift)
  {
    GeometryFacts(shift);
    var cells, per := Cells(parts, shift, signedChar), PerSector(shift);
    FlatLength(cells[ITEMS - per..ITEMS - per + per], ENTRY_SIZE);
    Run(cells, ITEMS - per, per)
  }

  /** The working buffer still holds that sector behind a structure of n bytes put into it afterwards. */
  function LeftOver(parts: seq<Part>, n: nat, shift: nat, signedChar: bool): (r: seq<byte>)
    requires Supported(shift) && n <= MIN_SECTOR_SIZE
    ensures |r| + n == Pow2(shift)
  {
    GeometryFacts(shift);
    LastRow(parts, shift, signedChar)[n..]
  }

  /** v is v0 with a table, twice, two headers and a boot record, and nothing else changed. */
  ghost predicate Image(v0: seq<Sector>, v: seq<Sector>, table: seq<Sector>, backup: nat, mbr: Sector, first: Sector,
                        second: Sector) {
    && |v| == |v0| == backup + |table| + 1 && 2 + |table| <= backup
    && v[0] == mbr && v[1] == first && v[|v| - 1] == second
    && v[2..2 + |table|] == table && v[backup..backup + |table|] == table
    && (forall s | 2 + |table| <= s < backup :: v[s] == v0[s])
  }

  /** v0 with all that written to it. */
  ghost function Assemble(v0: seq<Sector>, table: seq<Sector>, backup: nat, mbr: Sector, first: Sector, second: Sector)
    : (v: seq<Sector>)
    requires |v0| == backup + |table| + 1 && 2 + |table| <= backup
    ensures Image(v0, v, table, backup, mbr, first, second)
  {
    [mbr] + [first] + table + v0[2 + |table|..backup] + table + [second]
  }

  lemma ImageUnique(v0: seq<Sector>, v: seq<Sector>, table: seq<Sector>, backup: nat, mbr: Sector, first: Sector,
                    second: Sector)
    requires Image(v0, v, table, backup, mbr, first, second)
    ensures v == Assemble(v0, table, backup, mbr, first, second)
  {
    var w := Assemble(v0, table, backup, mbr, first, second);
    forall s | 0 <= s < |v| ensures v[s] == w[s] {
      if 2 <= s < 2 + |table| {
        assert v[2..2 + |table|][s - 2] == w[2..2 + |table|][s - 2];
      } else if backup <= s < backup + |table| {
        assert v[backup..backup + |table|][s - backup] == w[backup..backup + |table|][s - backup];
      }
    }
  }

  /** A disk with a GPT for parts on it. */
  ghost function FormattedDisk(v0: seq<Sector>, parts: seq<Part>, shift: nat, guid: Guid,
                               signedChar: bool): (v: seq<Sector>)
    requires Supported(shift) && LargeEnough(shift, |v0|)
    ensures |v| == |v0|
  {
    FirstSectorFacts(shift);
    Assemble(v0, TableOf(parts, shift, signedChar), BackupSector(shift, |v0|),
             MbrBytes([ProtectiveRecord(|v0|)]) + LeftOver(parts, MBR_SIZE, shift, signedChar),
             HeaderBytes(FirstHeader(parts, shift, |v0|, guid, signedChar)) +
                 LeftOver(parts, HEADER_SIZE, shift, signedChar),
             HeaderBytes(SecondHeader(parts, shift, |v0|, guid, signedChar)) +
                 LeftOver(parts, HEADER_SIZE, shift, signedChar))
  }
}
