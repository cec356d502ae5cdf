/** What holds of a disk that has been partitioned with a GPT. */
module GptFacts {
  import opened Bits
  import opened Bytes
  import opened Sectors
  import opened PartInfos
  import opened PlacementSafety
  import opened Validation
  import opened Termination
  import opened Crc32s
  import opened GptLayout
  import opened MbrLayout
  import opened GptImage
  import opened ScanSpec

  // Checksums

  lemma TableFlat(parts: seq<Part>, shift: nat, signedChar: bool)
    requires Supported(shift)
    ensures Flat(TableOf(parts, shift, signedChar)) == Flat(Cells(parts, shift, signedChar))
  {
    GeometryFacts(shift);
    var cells := Cells(parts, shift, signedChar);
    RowsFlat(cells, PerSector(shift), TableSectors(shift));
    assert cells[..ITEMS] == cells;
  }

  /** A header sector that the scanner accepts, for a table of 128 entries at lba, with the checksum of that table. */
  predicate Describes(s: Sector, lba: nat, table: seq<Sector>) {
    && |s| >= HEADER_SIZE && HeaderOk(s)
    && EntryLbaOf(s) == lba && NumEntriesOf(s) == ITEMS && ArrayCrcOf(s) == Checksum(Flat(table))
  }

  lemma SealedDescribes(h: Header, rest: seq<byte>, table: seq<Sector>)
    requires h.entryLba < WORD && h.numEntries == ITEMS && h.entrySize == ENTRY_SIZE
    requires h.arrayCrc == Checksum(Flat(table))
    ensures Describes(HeaderBytes(Sealed(h)) + rest, h.entryLba, table)
  {
    SealedOk(h, rest);
    TableFields(Sealed(h), rest);
  }

  function Swapped(h: Header, backup: nat): Header {
    h.(myLba := h.alternateLba, alternateLba := h.myLba, entryLba := backup)
  }

  /** Both headers pass the scanner's checks, and each holds the checksum of the table it refers to. */
  ghost predicate HeadersOk(v: seq<Sector>, n: nat, backup: nat) {
    && 2 + n <= backup && backup + n == |v| - 1
    && Describes(v[1], 2, v[2..2 + n]) && Describes(v[|v| - 1], backup, v[backup..backup + n])
  }

  lemma ImageHeadersOk(v0: seq<Sector>, v: seq<Sector>, t: seq<Sector>, backup: nat, mbr: Sector, h: Header,
                       rest: seq<byte>)
    requires Image(v0, v, t, backup, mbr, HeaderBytes(Sealed(h)) + rest, HeaderBytes(Sealed(Swapped(h, backup))) + rest)
    requires h.entryLba == 2 && backup < WORD && h.numEntries == ITEMS && h.entrySize == ENTRY_SIZE
    requires h.arrayCrc == Checksum(Flat(t))
    ensures HeadersOk(v, |t|, backup)
  {
    SealedDescribes(h, rest, t);
    SealedDescribes(Swapped(h, backup), rest, t);
  }

  lemma ChecksumsAgree(v0: seq<Sector>, parts: seq<Part>, shift: nat, guid: Guid, signedChar: bool)
    requires Supported(shift) && LargeEnough(shift, |v0|)
    ensures var v := FormattedDisk(v0, parts, shift, guid, signedChar);
            BackupSector(shift, |v0|) >= 0 && HeadersOk(v, TableSectors(shift), BackupSector(shift, |v0|))
  {
    var v := FormattedDisk(v0, parts, shift, guid, signedChar);
    FirstSectorFacts(shift);
    TableFlat(parts, shift, signedChar);
    ImageHeadersOk(v0, v, TableOf(parts, shift, signedChar), BackupSector(shift, |v0|), v[0],
                   PlainHeader(parts, shift, |v0|, guid, signedChar), LeftOver(parts, HEADER_SIZE, shift, signedChar));
  }

  // Where things are

  /** The bytes of a partition are the same before and after. */
  predicate Untouched(v0: seq<Sector>, v: seq<Sector>, o: nat, size: nat) {
    o + size <= |Flat(v0)| && o + size <= |Flat(v)| && Flat(v)[o..o + size] == Flat(v0)[o..o + size]
  }

  /** The bytes of a run of sectors that are the same before and after are the same. */
  lemma BytesSame(v0: seq<Sector>, v: seq<Sector>, ss: nat, lo: nat, n: nat, o: nat, size: nat)
    requires Uniform(v0, ss) && Uniform(v, ss) && lo + n <= |v0| == |v| && v[lo..lo + n] == v0[lo..lo + n]
    requires lo * ss <= o && o + size <= lo * ss + n * ss
    ensures Untouched(v0, v, o, size)
  {
    SliceOfRun(v0, ss, lo, n);
    SliceOfRun(v, ss, lo, n);
    SubSlice(Flat(v0), Flat(v), lo * ss, lo * ss + n * ss, o, size);
  }

  lemma SubSlice(f: seq<byte>, g: seq<byte>, a: nat, b: nat, o: nat, size: nat)
    requires a <= o && o + size <= b <= |f| && b <= |g| && f[a..b] == g[a..b]
    ensures f[o..o + size] == g[o..o + size]
  {
    var x, y := f[o..o + size], g[o..o + size];
    forall i | 0 <= i < size ensures x[i] == y[i] {
      assert f[a..b][o - a + i] == g[a..b][o - a + i];
    }
  }

  /** What the two headers say about the drive, with a table of n sectors at 2 and at backup. */
  predicate DeclareLayout(h: Header, g: Header, n: nat, backup: nat, drive: nat, guid: Guid) {
    && h.myLba == 1 && h.entryLba == 2 && h.firstUsable == 2 + n && h.lastUsable + 1 == backup
    && h.alternateLba == drive - 1 == backup + n && h.diskGuid == guid
    && h.numEntries == ITEMS && h.entrySize == ENTRY_SIZE
    && g == h.(crc := g.crc, myLba := h.alternateLba, alternateLba := h.myLba, entryLba := backup)
  }

  lemma HeaderOnDisk(h: Header, rest: seq<byte>)
    requires FieldsFit(h.(crc := 0))
    ensures ReadHeader(HeaderBytes(Sealed(h)) + rest) == Sealed(h)
  {
    HeaderRoundTrip(Sealed(h), rest);
  }

  lemma ImageDeclares(v0: seq<Sector>, v: seq<Sector>, t: seq<Sector>, backup: nat, mbr: Sector, h: Header,
                      rest: seq<byte>,
                      guid: Guid)
    requires Image(v0, v, t, backup, mbr, HeaderBytes(Sealed(h)) + rest, HeaderBytes(Sealed(Swapped(h, backup))) + rest)
    requires |v0| < WORD
    requires h == Header(0, 1, |v0| - 1, 2 + |t|, backup - 1, guid, 2, ITEMS, ENTRY_SIZE, Checksum(Flat(t)))
    ensures |v[1]| >= HEADER_SIZE && |v[|v| - 1]| >= HEADER_SIZE
    ensures DeclareLayout(ReadHeader(v[1]), ReadHeader(v[|v| - 1]), |t|, backup, |v|, guid)
  {
    HeaderOnDisk(h, rest);
    HeaderOnDisk(Swapped(h, backup), rest);
  }

  /** The headers on the disk declare the usable sectors to be those between the two tables; together with the boot
      record, the tables and the headers themselves these make up the drive. */
  lemma MetadataCoversDrive(v0: seq<Sector>, parts: seq<Part>, shift: nat, guid: Guid, signedChar: bool)
    requires Supported(shift) && LargeEnough(shift, |v0|)
    ensures BackupSector(shift, |v0|) >= FirstSector(shift) >= 2 + TableSectors(shift)
    ensures var v := FormattedDisk(v0, parts, shift, guid, signedChar);
            var n, backup := TableSectors(shift), BackupSector(shift, |v0|);
            && |v| == |v0| >= 2 && |v[1]| >= HEADER_SIZE && |v[|v| - 1]| >= HEADER_SIZE
            && DeclareLayout(ReadHeader(v[1]), ReadHeader(v[|v| - 1]), n, backup, |v|, guid)
  {
    var v := FormattedDisk(v0, parts, shift, guid, signedChar);
    FirstSectorFacts(shift);
    TableFlat(parts, shift, signedChar);
    ImageDeclares(v0, v, TableOf(parts, shift, signedChar), BackupSector(shift, |v0|), v[0],
                  PlainHeader(parts, shift, |v0|, guid, signedChar),
                  LeftOver(parts, HEADER_SIZE, shift, signedChar), guid);
  }

  lemma RoundsDown(x: nat, shift: nat, n: nat, p: nat)
    requires p == Pow2(shift)
    ensures n * p <= x ==> n <= Shift(x, shift)
    ensures x <= n * p ==> Shift(x, shift) <= n
  {
    ShiftAndMaskUnique(n * p, shift, n, 0);
    if n * p <= x {
      ShiftMonotone(n * p, x, shift);
    }
    if x <= n * p {
      ShiftMonotone(x, n * p, shift);
    }
  }

  /** Bytes between two sectors are in sectors between them. */
  lemma LbaBounds(p: Part, shift: nat, lo: nat, hi: nat)
    requires 0 < lo && hi * Pow2(shift) < WORD
    requires lo * Pow2(shift) <= p.offset && p.size > 0 && p.offset + p.size <= hi * Pow2(shift)
    ensures lo <= StartLba(p, shift) && EndLba(p, shift) < hi
  {
    RoundsDown(p.offset, shift, lo, Pow2(shift));
    RoundsDown(p.offset + p.size, shift, hi, Pow2(shift));
    RoundsDown(p.offset + p.size, shift, lo, Pow2(shift));
  }

  lemma DriveFits(n: nat, p: nat)
    requires n < U32 && p <= MAX_SECTOR_SIZE
    ensures n * p < WORD
  {
    MulMonotone(n, p, MAX_SECTOR_SIZE);
  }

  lemma PartitionKept(v0: seq<Sector>, v: seq<Sector>, p: Part, shift: nat, lo: nat, hi: nat)
    requires Supported(shift) && 0 < lo <= hi <= |v0| == |v| && |v| < U32
    requires Uniform(v0, Pow2(shift)) && Uniform(v, Pow2(shift)) && v[lo..hi] == v0[lo..hi]
    requires lo * Pow2(shift) <= p.offset && p.size > 0 && p.offset + p.size <= hi * Pow2(shift)
    ensures Untouched(v0, v, p.offset, p.size) && lo <= StartLba(p, shift) && EndLba(p, shift) < hi
  {
    GeometryFacts(shift);
    DriveFits(hi, Pow2(shift));
    LbaBounds(p, shift, lo, hi);
    SumProduct(lo, hi - lo, Pow2(shift));
    BytesSame(v0, v, Pow2(shift), lo, hi - lo, p.offset, p.size);
  }

  /** Every partition is within sectors lo to hi - 1, and not one of its bytes differs between v0 and v. */
  predicate AllUntouched(v0: seq<Sector>, v: seq<Sector>, parts: seq<Part>, shift: nat, lo: nat, hi: nat) {
    forall i | 0 <= i < |parts| ::
      && Untouched(v0, v, parts[i].offset, parts[i].size)
      && lo <= StartLba(parts[i], shift) && EndLba(parts[i], shift) < hi
  }

  lemma SoundUntouched(v0: seq<Sector>, v: seq<Sector>, parts: seq<Part>, shift: nat, lo: nat, hi: nat)
    requires Supported(shift) && 0 < lo <= hi <= |v0| == |v| && |v| < U32
    requires Uniform(v0, Pow2(shift)) && Uniform(v, Pow2(shift)) && v[lo..hi] == v0[lo..hi]
    requires Sound(parts, lo * Pow2(shift), hi * Pow2(shift))
    ensures AllUntouched(v0, v, parts, shift, lo, hi)
  {
    forall i | 0 <= i < |parts|
      ensures Untouched(v0, v, parts[i].offset, parts[i].size)
      ensures lo <= StartLba(parts[i], shift) && EndLba(parts[i], shift) < hi {
      assert InPlace(EntryAt(parts, i), lo * Pow2(shift), hi * Pow2(shift));
      PartitionKept(v0, v, parts[i], shift, lo, hi);
    }
  }

  lemma ImageKeeps(v0: seq<Sector>, v: seq<Sector>, t: seq<Sector>, backup: nat, mbr: Sector, first: Sector,
                   second: Sector,
                   lo: nat)
    requires Image(v0, v, t, backup, mbr, first, second) && 2 + |t| <= lo <= backup
    ensures |v| == |v0| && backup <= |v0| && v[lo..backup] == v0[lo..backup]
  {
  }

  /** The pieces of an image are whole sectors, so the disk is. */
  lemma ImageUniform(v0: seq<Sector>, v: seq<Sector>, t: seq<Sector>, backup: nat, mbr: Sector, first: Sector,
                     second: Sector,
                     ss: nat)
    requires Image(v0, v, t, backup, mbr, first, second) && Uniform(v0, ss) && Uniform(t, ss)
    requires |mbr| == |first| == |second| == ss
    ensures Uniform(v, ss)
  {
    forall s | 0 <= s < |v| ensures |v[s]| == ss {
      if 2 <= s < 2 + |t| {
        assert v[2..2 + |t|][s - 2] == t[s - 2];
      } else if backup <= s < backup + |t| {
        assert v[backup..backup + |t|][s - backup] == t[s - backup];
      }
    }
  }

  lemma RowsUniform(cells: seq<seq<byte>>, per: nat, n: nat)
    requires n * per <= |cells| && Uniform(cells, ENTRY_SIZE)
    ensures Uniform(Rows(cells, per, n), per * ENTRY_SIZE)
  {
    forall r | 0 <= r < n ensures |Row(cells, per, n, r)| == per * ENTRY_SIZE {
      RowInRange(r, per, n, |cells|);
      FlatLength(cells[r * per..r * per + per], ENTRY_SIZE);
    }
  }

  lemma FormattedUniform(v0: seq<Sector>, parts: seq<Part>, shift: nat, guid: Guid, signedChar: bool)
    requires Supported(shift) && LargeEnough(shift, |v0|) && Uniform(v0, Pow2(shift))
    ensures Uniform(FormattedDisk(v0, parts, shift, guid, signedChar), Pow2(shift))
  {
    GeometryFacts(shift);
    FirstSectorFacts(shift);
    RowsUniform(Cells(parts, shift, signedChar), PerSector(shift), TableSectors(shift));
    var v := FormattedDisk(v0, parts, shift, guid, signedChar);
    ImageUniform(v0, v, TableOf(parts, shift, signedChar), BackupSector(shift, |v0|), v[0], v[1], v[|v| - 1],
        Pow2(shift));
  }

  /** On a sound table, every partition is within the usable sectors, and not one byte
      of any partition has changed. */
  lemma PartitionsUntouched(v0: seq<Sector>, parts: seq<Part>, shift: nat, guid: Guid, signedChar: bool)
    requires Supported(shift) && LargeEnough(shift, |v0|) && Uniform(v0, Pow2(shift))
    requires Sound(parts, ALIGN, BackupSector(shift, |v0|) * Pow2(shift))
    ensures var v := FormattedDisk(v0, parts, shift, guid, signedChar);
            AllUntouched(v0, v, parts, shift, FirstSector(shift), BackupSector(shift, |v0|))
  {
    var v := FormattedDisk(v0, parts, shift, guid, signedChar);
    FormattedUniform(v0, parts, shift, guid, signedChar);
    FirstSectorFacts(shift);
    var first, backup := FirstSector(shift), BackupSector(shift, |v0|);
    ImageKeeps(v0, v, TableOf(parts, shift, signedChar), backup, v[0], v[1], v[|v| - 1], first);
    SoundUntouched(v0, v, parts, shift, first, backup);
  }

  /** The space given to validation is the usable part of the drive in bytes, and nothing in it overflows. */
  lemma GptSpaceFacts(shift: nat, drive: nat)
    requires Supported(shift) && LargeEnough(shift, drive) && FirstSector(shift) < BackupSector(shift, drive)
    ensures var s := GptSpace(shift, drive);
            && Roomy(s) && s.total > 0 && (s.first * s.blockSize) % ALIGN == 0
            && s.MinOffset() == ALIGN && s.MaxOffset() + 1 == BackupSector(shift, drive) * Pow2(shift)
  {
    FirstSectorFacts(shift);
    SectorSizes(shift);
    var s, u := GptSpace(shift, drive), Pow2(shift);
    SpaceInBytes(s, u);
    SpaceLimits(s, u, BackupSector(shift, drive));
  }

  lemma SectorSizes(shift: nat)
    requires Supported(shift)
    ensures Pow2(shift) == 512 || Pow2(shift) == 1024 || Pow2(shift) == 2048 || Pow2(shift) == 4096
  {
    match shift
    case 9 => assert Pow2(9) == 512;
    case 10 => assert Pow2(10) == 1024;
    case 11 => assert Pow2(11) == 2048;
    case 12 => assert Pow2(12) == 4096;
  }

  lemma SpaceLimits(s: Space, u: nat, backup: nat)
    requires Roomy(s) && s.blockSize == u && s.first * u == ALIGN && s.total > 0 && s.first + s.total == backup
    ensures (s.first * s.blockSize) % ALIGN == 0 && s.MinOffset() == ALIGN && s.MaxOffset() + 1 == backup * u
  {
    SpaceBounds(s);
  }

  lemma SpaceInBytes(s: Space, u: nat)
    requires s.blockSize == u && (u == 512 || u == 1024 || u == 2048 || u == 4096)
    requires s.first * u == ALIGN && s.first + s.total < U32 && s.first > 0
    ensures Roomy(s)
  {
    MulMonotone(u, s.first + s.total, U32);
    match u
    case 512 => case 1024 => case 2048 => case 4096 =>
  }

  /** A table of percentages that validation accepts for a GPT is one to which the
      results on formatted disks apply. */
  lemma PercentagesFormat(parts: seq<Part>, shift: nat, drive: nat, limit: nat)
    requires Supported(shift) && LargeEnough(shift, drive) && limit == BackupSector(shift, drive) * Pow2(shift)
    requires BackupSector(shift, drive) - FirstSector(shift) >= 100 && Percentages(parts)
    ensures var v := Validated(parts, GptSpace(shift, drive));
            v.Done? && v.err == Success ==> Sound(v.parts, ALIGN, limit)
  {
    GptSpaceFacts(shift, drive);
    PercentagesSound(parts, GptSpace(shift, drive));
  }

  lemma HeadroomOf(s: Space, u: nat, n: nat)
    requires s.blockSize == u && u <= 4096 && s.first + s.total < U32 && n <= U32
    ensures Headroom(s, n)
  {
    MulMonotone(u, s.first + s.total, U32);
    MulMonotone(u, s.total, U32);
    MulMonotone(ALIGN, n + 1, U32 + 1);
  }

  /** On the space of a GPT the condition under which validation ends is all there is to it: the drive is so small
      against 64 bits that no placing of up to four billion entries wraps. */
  lemma GptValidationEnds(parts: seq<Part>, shift: nat, drive: nat)
    requires Supported(shift) && LargeEnough(shift, drive) && FirstSector(shift) < BackupSector(shift, drive)
    requires |parts| <= U32 && Steady(parts, GptSpace(shift, drive))
    ensures Validated(parts, GptSpace(shift, drive)) != Hangs
  {
    GptSpaceFacts(shift, drive);
    SectorSizes(shift);
    HeadroomOf(GptSpace(shift, drive), Pow2(shift), |parts|);
    ValidationEnds(parts, GptSpace(shift, drive));
  }

  // The first sector

  /** A boot record without code, whatever its partitions, is not taken for a volume. */
  lemma BootRecordNoVolume(cfg: Config, recs: seq<Record>, rest: seq<byte>)
    ensures Identify(cfg, MbrBytes(recs) + rest) == None
  {
    var tail := FourSlots(recs) + LE(2, MBR_SIGNATURE) + rest;
    FrontZeros(Zeros(RECORDS_AT), tail);
    assert MbrBytes(recs) + rest == Zeros(RECORDS_AT) + tail;
    ZeroField(8);
  }

  /** The first sector of a formatted disk holds one record, which covers the rest of the
      drive as far as 32 bits go. */
  lemma ProtectiveBootRecord(v0: seq<Sector>, parts: seq<Part>, shift: nat, guid: Guid, signedChar: bool)
    requires Supported(shift) && LargeEnough(shift, |v0|)
    ensures var v := FormattedDisk(v0, parts, shift, guid, signedChar);
            && |v| > 0 && |v[0]| >= MBR_SIZE && Signed(v[0])
            && SeenAt(v[0], 0) == Seen(0xEE, 1, if |v| > 0xFFFF_FFFF then 0xFFFF_FFFF else |v| - 1)
            && forall i | 1 <= i < 4 :: SeenAt(v[0], i) == Seen(0, 0, 0)
  {
    FirstSectorFacts(shift);
    OneRecordSeen(ProtectiveRecord(|v0|), LeftOver(parts, MBR_SIZE, shift, signedChar));
  }

  lemma OneRecordSeen(rec: Record, rest: seq<byte>)
    requires rec.start < U32 && rec.size < U32
    ensures var s := MbrBytes([rec]) + rest;
            && Signed(s) && SeenAt(s, 0) == Seen(rec.osType, rec.start, rec.size)
            && forall i | 1 <= i < 4 :: SeenAt(s, i) == Seen(0, 0, 0)
  {
    SignatureRoundTrip([rec], rest);
    forall i | 0 <= i < 4
      ensures SeenAt(MbrBytes([rec]) + rest, i) ==
              if i == 0 then Seen(rec.osType, rec.start, rec.size) else Seen(0, 0, 0) {
      RecordRoundTrip([rec], rest, i);
    }
  }

  lemma FrontZeros(front: seq<byte>, tail: seq<byte>)
    requires front == Zeros(RECORDS_AT)
    ensures (front + tail)[0] == 0 && (front + tail)[3..11] == Zeros(8)
  {
  }

  // The rest of a header sector

  lemma {:induction false} UnicodeTail(name: seq<byte>, room: nat, signedChar: bool, j: nat)
    requires |name| <= room && 0 !in name && j <= room
    ensures Unicode(name, room, signedChar)[2 * j..] == Zeros(2 * (room - j)) <==> |name| <= j
    decreases room
  {
    if name == [] {
      assert Zeros(2 * room)[2 * j..] == Zeros(2 * (room - j));
    } else {
      var w, rest := Wide(name[0], signedChar), Unicode(name[1..], room - 1, signedChar);
      if j == 0 {
        assert (w + rest)[0] != 0;
      } else {
        UnicodeTail(name[1..], room - 1, signedChar, j - 1);
        assert (w + rest)[2 * j..] == rest[2 * (j - 1)..];
      }
    }
  }

  /** Characters of a name in the first 92 bytes of an entry. */
  const NAME_IN_HEADER: nat := 18

  lemma EntryTail(p: Part, shift: nat, signedChar: bool)
    ensures EntryBytes(p, shift, signedChar)[HEADER_SIZE..] == Zeros(ENTRY_SIZE - HEADER_SIZE) <==>
            |Cut(p.info.name, NAME_LENGTH)| <= NAME_IN_HEADER
  {
    var head, name := EntryHead(p, shift), Unicode(Cut(p.info.name, NAME_LENGTH), NAME_LENGTH, signedChar);
    CutFacts(p.info.name, NAME_LENGTH);
    UnicodeTail(Cut(p.info.name, NAME_LENGTH), NAME_LENGTH, signedChar, NAME_IN_HEADER);
    TailOf(head, name);
  }

  lemma TailOf(head: seq<byte>, name: seq<byte>)
    requires |head| == 56 && |name| == 72
    ensures (head + name)[HEADER_SIZE..] == name[2 * NAME_IN_HEADER..]
  {
  }

  /** The k-th cell, if all partitions have a type. */
  lemma CellZero(parts: seq<Part>, k: nat, shift: nat, signedChar: bool)
    requires forall i | 0 <= i < |parts| :: parts[i].info.typeGuid != NO_GUID
    ensures EntryCell(parts, k, shift, signedChar) == Zeros(ENTRY_SIZE) <==> k >= |parts|
    ensures EntryCell(parts, k, shift, signedChar)[HEADER_SIZE..] == Zeros(ENTRY_SIZE - HEADER_SIZE) <==>
            k >= |parts| || |Cut(parts[k].info.name, NAME_LENGTH)| <= NAME_IN_HEADER
  {
    if k < |parts| {
      EntryNotZero(parts[k], shift, signedChar);
      EntryTail(parts[k], shift, signedChar);
    } else {
      assert Zeros(ENTRY_SIZE)[HEADER_SIZE..] == Zeros(ENTRY_SIZE - HEADER_SIZE);
    }
  }

  lemma EntryNotZero(p: Part, shift: nat, signedChar: bool)
    requires p.info.typeGuid != NO_GUID
    ensures EntryBytes(p, shift, signedChar) != Zeros(ENTRY_SIZE)
  {
    var e := EntryBytes(p, shift, signedChar);
    SplitFive(p.info.typeGuid, p.info.uniqueGuid, LE(8, StartLba(p, shift)), LE(8, EndLba(p, shift)), Zeros(8),
              Unicode(Cut(p.info.name, NAME_LENGTH), NAME_LENGTH, signedChar));
    assert e[0..16] == p.info.typeGuid;
    assert Zeros(ENTRY_SIZE)[0..16] == NO_GUID;
  }

  /** A run of cells is zero from byte 92 on if and only if its first cell is and all others are zero. */
  lemma RunTail(cells: seq<seq<byte>>, from: nat, n: nat)
    requires from + n <= |cells| && n > 0 && Uniform(cells, ENTRY_SIZE)
    ensures |Run(cells, from, n)| == n * ENTRY_SIZE
    ensures Run(cells, from, n)[HEADER_SIZE..] == Zeros(n * ENTRY_SIZE - HEADER_SIZE) <==>
            cells[from][HEADER_SIZE..] == Zeros(ENTRY_SIZE - HEADER_SIZE) &&
            forall j | from < j < from + n :: cells[j] == Zeros(ENTRY_SIZE)
  {
    var run, m := Run(cells, from, n), n * ENTRY_SIZE;
    CellOfRun(cells, from, n, 0);
    if run[HEADER_SIZE..] == Zeros(m - HEADER_SIZE) {
      forall j | from < j < from + n ensures cells[j] == Zeros(ENTRY_SIZE) {
        CellOfRun(cells, from, n, j - from);
        ZeroSlice(run, HEADER_SIZE, (j - from) * ENTRY_SIZE, (j - from) * ENTRY_SIZE + ENTRY_SIZE);
      }
      ZeroSlice(run, HEADER_SIZE, HEADER_SIZE, ENTRY_SIZE);
      assert run[0..ENTRY_SIZE][HEADER_SIZE..] == run[HEADER_SIZE..ENTRY_SIZE];
    } else if cells[from][HEADER_SIZE..] == Zeros(ENTRY_SIZE - HEADER_SIZE) {
      if forall j | from < j < from + n :: cells[j] == Zeros(ENTRY_SIZE) {
        AllZeroRun(cells, from, n, run);
      }
    }
  }

  lemma ZeroSlice(s: seq<byte>, z: nat, a: nat, b: nat)
    requires z <= a <= b <= |s| && s[z..] == Zeros(|s| - z)
    ensures s[a..b] == Zeros(b - a)
  {
    assert s[a..b] == s[z..][a - z..b - z];
  }

  lemma AllZeroRun(cells: seq<seq<byte>>, from: nat, n: nat, run: seq<byte>)
    requires from + n <= |cells| && n > 0 && Uniform(cells, ENTRY_SIZE) && run == Run(cells, from, n)
    requires |run| == n * ENTRY_SIZE && cells[from][HEADER_SIZE..] == Zeros(ENTRY_SIZE - HEADER_SIZE)
    requires forall j | from < j < from + n :: cells[j] == Zeros(ENTRY_SIZE)
    ensures run[HEADER_SIZE..] == Zeros(|run| - HEADER_SIZE)
  {
    forall i | HEADER_SIZE <= i < |run| ensures run[i] == 0 {
      var j, r := i / ENTRY_SIZE, i % ENTRY_SIZE;
      CellOfRun(cells, from, n, j);
      assert run[j * ENTRY_SIZE..j * ENTRY_SIZE + ENTRY_SIZE][r] == run[i];
      if j == 0 {
        assert cells[from][HEADER_SIZE..][r - HEADER_SIZE] == cells[from][r];
      }
    }
  }

  /** Entries before the last sector of the table. */
  function BeforeLast(shift: nat): (n: nat)
    requires Supported(shift)
    ensures n == ITEMS - PerSector(shift)
  {
    GeometryFacts(shift);
    ITEMS - PerSector(shift)
  }

  predicate Blanked(s: seq<byte>) {
    s == Zeros(|s|)
  }

  /** The specification wants the rest of a header sector zero. It is if and only if the partitions do not reach into
      the last sector of the table, or just one does and its name is short. */
  lemma ReservedZero(parts: seq<Part>, shift: nat, signedChar: bool)
    requires Supported(shift) && forall i | 0 <= i < |parts| :: parts[i].info.typeGuid != NO_GUID
    ensures Blanked(LeftOver(parts, HEADER_SIZE, shift, signedChar)) <==>
            var spare := BeforeLast(shift);
            |parts| <= spare || (|parts| == spare + 1 && |Cut(parts[spare].info.name, NAME_LENGTH)| <= NAME_IN_HEADER)
  {
    GeometryFacts(shift);
    var cells, per, spare := Cells(parts, shift, signedChar), PerSector(shift), BeforeLast(shift);
    RunTail(cells, spare, per);
    CellZero(parts, spare, shift, signedChar);
    CellZero(parts, spare + 1, shift, signedChar);
    assert cells[spare] == EntryCell(parts, spare, shift, signedChar);
    assert cells[spare + 1] == EntryCell(parts, spare + 1, shift, signedChar);
  }

  // What is not checked

  /** On a drive without room for the tables and the alignment, the number of sectors the program believes it may give
      to partitions exceeds the drive; on any other it does not. */
  lemma SmallDriveWraps(shift: nat, drive: nat)
    requires Supported(shift) && drive < U32
    ensures U64(BackupSector(shift, drive) - FirstSector(shift)) < drive <==> LargeEnough(shift, drive)
  {
    GeometryFacts(shift);
    FirstSectorFacts(shift);
  }

  /** Partitions past the 128th leave no trace on the disk. */
  lemma ExtraPartitionsDropped(parts: seq<Part>, shift: nat, signedChar: bool)
    requires |parts| > ITEMS
    ensures Cells(parts, shift, signedChar) == Cells(parts[..ITEMS], shift, signedChar)
  {
  }
}
