/** Writing a master boot record. */
module MbrFormat {
  import opened Bits
  import opened Bytes
  import opened Sectors
  import opened PartInfos
  import opened Validation
  import opened Validator
  import Buffers
  import opened Cache
  import opened BlockDevices
  import opened MbrLayout
  import opened GptImage
  import opened SectorIO

  const SECTORS_PER_TRACK: nat := 63
  const CYLINDERS: nat := 1024

  // Drive geometry

  predicate HeadCount(h: nat) {
    h == 8 || h == 16 || h == 32 || h == 64 || h == 128 || h == 255
  }

  /** The drive fits in 1024 cylinders with h heads. */
  predicate Fits(sectors: nat, h: nat)
    requires h > 0
  {
    sectors / (h * SECTORS_PER_TRACK) <= CYLINDERS
  }

  /** The least number of heads, a power of two from 8 on, with which the drive fits, or else 255. */
  function HeadsFor(sectors: nat): (h: nat)
    ensures HeadCount(h)
    ensures h != 255 ==> Fits(sectors, h)
    ensures forall g: nat | HeadCount(g) && g < h :: !Fits(sectors, g)
  {
    if Fits(sectors, 8) then 8 else if Fits(sectors, 16) then 16 else if Fits(sectors, 32) then 32
    else if Fits(sectors, 64) then 64 else if Fits(sectors, 128) then 128 else 255
  }

  /** The number of heads is doubled, in eight bits, until the drive fits or the number overflows. */
  method Heads(sectors: nat) returns (h: nat)
    ensures h == HeadsFor(sectors)
  {
    h := 8;
    while h != 0 && sectors / (h * SECTORS_PER_TRACK) > CYLINDERS
      invariant h == 0 || h == 8 || h == 16 || h == 32 || h == 64 || h == 128
      invariant forall g: nat | HeadCount(g) && g != 255 && (h == 0 || g < h) :: !Fits(sectors, g)
      decreases if h == 0 then 0 else 256 - h
    {
      h := (h * 2) % 256;
    }
    if h == 0 {
      h := 255;
    }
  }

  // Cylinder, head and sector

  /** Six bits of sector, counted from 1, and ten bits of cylinder, two of them above the sector; the rest is lost. */
  function ToChs(sect: nat, heads: nat): Chs
    requires HeadCount(heads)
  {
    var tracks := sect / SECTORS_PER_TRACK;
    var cyl := tracks / heads;
    Chs(tracks % heads, 1 + sect % SECTORS_PER_TRACK + 64 * ((cyl / 256) % 4), cyl % 256)
  }

  function SectorField(c: Chs): nat {
    c.sector % 64
  }

  function CylinderField(c: Chs): nat {
    c.track + 256 * (c.sector / 64)
  }

  /** The sector the fields stand for. */
  function FromChs(c: Chs, heads: nat): int {
    (CylinderField(c) * heads + c.head) * SECTORS_PER_TRACK + SectorField(c) - 1
  }

  lemma ChsFields(sect: nat, heads: nat)
    requires HeadCount(heads)
    ensures var c, tracks := ToChs(sect, heads), sect / SECTORS_PER_TRACK;
            && 1 <= SectorField(c) <= SECTORS_PER_TRACK && SectorField(c) == 1 + sect % SECTORS_PER_TRACK
            && c.head < heads && c.head == tracks % heads && CylinderField(c) == (tracks / heads) % CYLINDERS
  {
  }

  /** The fields give the sector back if and only if it is in the first 1024 cylinders. */
  lemma ChsRoundTrip(sect: nat, heads: nat)
    requires HeadCount(heads)
    ensures FromChs(ToChs(sect, heads), heads) == sect <==> sect < CYLINDERS * heads * SECTORS_PER_TRACK
    ensures var c := ToChs(sect, heads); c.head < heads && 1 <= SectorField(c) <= SECTORS_PER_TRACK
  {
    ChsFields(sect, heads);
    var tracks := sect / SECTORS_PER_TRACK;
    var cyl := tracks / heads;
    ChsLinear(sect, tracks, cyl, heads);
    CylinderBound(cyl, tracks % heads, sect % SECTORS_PER_TRACK, heads);
  }

  lemma ChsLinear(sect: nat, tracks: nat, cyl: nat, heads: nat)
    requires HeadCount(heads) && tracks == sect / SECTORS_PER_TRACK && cyl == tracks / heads
    ensures sect == (cyl * heads + tracks % heads) * SECTORS_PER_TRACK + sect % SECTORS_PER_TRACK
  {
    assert tracks == cyl * heads + tracks % heads;
  }

  lemma CylinderBound(cyl: nat, head: nat, s: nat, heads: nat)
    requires HeadCount(heads) && head < heads && s < SECTORS_PER_TRACK
    ensures (cyl * heads + head) * SECTORS_PER_TRACK + s < CYLINDERS * heads * SECTORS_PER_TRACK <==> cyl < CYLINDERS
    ensures (cyl * heads + head) * SECTORS_PER_TRACK == ((cyl % CYLINDERS) * heads + head) * SECTORS_PER_TRACK
            <==> cyl < CYLINDERS
  {
    match heads
    case 8 => case 16 => case 32 => case 64 => case 128 => case 255 =>
  }

  /** The test that picks the number of heads lets one cylinder too many through. All sectors of a drive can be given
      in these fields if and only if the drive does not use it. */
  lemma AllSectorsFit(sectors: nat, heads: nat)
    requires HeadCount(heads)
    ensures (forall sect | 0 <= sect < sectors :: FromChs(ToChs(sect, heads), heads) == sect) <==>
            sectors <= CYLINDERS * heads * SECTORS_PER_TRACK
  {
    forall sect: nat
      ensures FromChs(ToChs(sect, heads), heads) == sect <==> sect < CYLINDERS * heads * SECTORS_PER_TRACK {
      ChsRoundTrip(sect, heads);
    }
    if sectors > CYLINDERS * heads * SECTORS_PER_TRACK {
      ChsRoundTrip(sectors - 1, heads);
    }
  }

  /** A drive of 516097 sectors is given 8 heads, and its last sector the fields of its first. */
  lemma LastCylinderLost()
    ensures Fits(516097, 8) && ToChs(516096, 8) == ToChs(0, 8)
  {
    assert 516097 / 504 == 1024;
    assert 516096 / 63 == 8192 && 516096 % 63 == 0;
  }

  // The record

  function Low32(x: int): nat {
    x % U32
  }

  /** The record of a partition, sector numbers in 32 bits. */
  function RecordOf(p: Part, shift: nat, heads: nat): Record
    requires HeadCount(heads)
  {
    var sect, numsect := Low32(Shift(p.offset, shift)), Low32(Shift(p.size, shift));
    Record(0, ToChs(sect, heads), p.info.sysind, ToChs(Low32(sect + numsect - 1), heads), sect, numsect)
  }

  /** The packed fields of a record give its first and its last sector, on the sectors that can be packed. */
  lemma RecordChs(p: Part, shift: nat, heads: nat)
    requires HeadCount(heads)
    requires var sect, numsect := Shift(p.offset, shift), Shift(p.size, shift);
             numsect > 0 && sect + numsect <= CYLINDERS * heads * SECTORS_PER_TRACK
    ensures var rec := RecordOf(p, shift, heads);
            && FromChs(rec.first, heads) == rec.start == Shift(p.offset, shift) && rec.size == Shift(p.size, shift)
            && FromChs(rec.last, heads) == rec.start + rec.size - 1 && rec.osType == p.info.sysind && rec.boot == 0
  {
    var sect, numsect := Shift(p.offset, shift), Shift(p.size, shift);
    PackableBelow(heads);
    RecordPlain(p, shift, heads);
    ChsExact(sect, heads);
    ChsExact(sect + numsect - 1, heads);
  }

  lemma RecordPlain(p: Part, shift: nat, heads: nat)
    requires HeadCount(heads)
    requires Shift(p.size, shift) > 0 && Shift(p.offset, shift) + Shift(p.size, shift) < U32
    ensures var sect, numsect := Shift(p.offset, shift), Shift(p.size, shift);
            RecordOf(p, shift, heads) ==
            Record(0, ToChs(sect, heads), p.info.sysind, ToChs(sect + numsect - 1, heads), sect, numsect)
  {
    Low32Same(Shift(p.offset, shift));
    Low32Same(Shift(p.size, shift));
    Low32Same(Shift(p.offset, shift) + Shift(p.size, shift) - 1);
  }

  lemma Low32Same(x: nat)
    requires x < U32
    ensures Low32(x) == x
  {
  }

  lemma ChsExact(sect: nat, heads: nat)
    requires HeadCount(heads) && sect < CYLINDERS * heads * SECTORS_PER_TRACK
    ensures FromChs(ToChs(sect, heads), heads) == sect
  {
    ChsRoundTrip(sect, heads);
  }

  lemma PackableBelow(heads: nat)
    requires HeadCount(heads)
    ensures CYLINDERS * heads * SECTORS_PER_TRACK < U32
  {
  }

  function RecordsOf(parts: seq<Part>, shift: nat, heads: nat): (r: seq<Record>)
    requires HeadCount(heads)
    ensures |r| == |parts| && forall i | 0 <= i < |parts| :: r[i] == RecordOf(parts[i], shift, heads)
  {
    seq(|parts|, i requires 0 <= i < |parts| => RecordOf(parts[i], shift, heads))
  }

  /** What is written to the start of the disk. */
  function BootSector(parts: seq<Part>, shift: nat, heads: nat): (s: seq<byte>)
    requires HeadCount(heads) && Supported(shift)
    ensures |s| == Pow2(shift)
  {
    GeometryFacts(shift);
    MbrBytes(RecordsOf(parts, shift, heads)) + Zeros(Pow2(shift) - MBR_SIZE)
  }

  function MbrSpace(shift: nat, drive: nat): (s: Space)
    requires Supported(shift)
    ensures 0 < s.blockSize <= ALIGN
  {
    GeometryFacts(shift);
    Space(Shift(ALIGN, shift), Low32(drive - Shift(ALIGN, shift)), Pow2(shift))
  }

  /** The space is the drive from 1 MiB on, as long as it is not smaller than that. */
  lemma MbrSpaceIs(shift: nat, drive: nat)
    requires Supported(shift) && drive < U32
    ensures var s := MbrSpace(shift, drive);
            && s.blockSize == Pow2(shift) && s.first * Pow2(shift) == 0x10_0000
            && (s.first + s.total == drive <==> 0x10_0000 <= drive * Pow2(shift))
            && (drive < s.first ==> s.total == U32 - (s.first - drive))
  {
    GeometryFacts(shift);
    ProductOrder(Shift(ALIGN, shift), drive, Pow2(shift));
  }

  /** Records are put into a cleared buffer one by one. */
  method BuildBootSector(parts: seq<Part>, shift: nat, heads: nat) returns (mbr: seq<byte>)
    requires Supported(shift) && HeadCount(heads) && |parts| <= 4
    ensures mbr == BootSector(parts, shift, heads)
  {
    var records: seq<Record> := [];
    for partIndex := 0 to |parts|
      invariant records == RecordsOf(parts, shift, heads)[..partIndex]
    {
      records := records + [RecordOf(parts[partIndex], shift, heads)];
    }
    GeometryFacts(shift);
    mbr := MbrBytes(records) + Zeros(Pow2(shift) - MBR_SIZE);
  }

  /** The boot sector at the start of the disk. */
  method WriteBootSector(dev: BlockDevice, mbr: seq<byte>) returns (ok: bool)
    requires dev.Valid() && |mbr| <= |Flat(dev.view)|
    modifies dev`medium, dev`faults, dev`rawReads, dev`rawWrites, dev`slots, dev`view, dev`past, dev.Parts
    modifies dev`rawSyncs, dev`syncedWrites
    ensures dev.Valid() && |dev.view| == old(|dev.view|)
    ensures ok ==> dev.rawSyncs > old(dev.rawSyncs) && dev.syncedWrites == dev.rawWrites
    ensures ok ==> Flat(dev.view) == Overlay(Flat(old(dev.view)), 0, mbr) && dev.medium == dev.view
    ensures ok ==> InBounds(dev.slots, |dev.view|)
    ensures |mbr| == dev.sectorSize && |dev.view| > 0 ==> SameOutside(old(dev.view), dev.view, 0, 1)
    ensures |mbr| == dev.sectorSize && |dev.view| > 0 && ok ==> dev.view == old(dev.view)[0 := mbr]
    ensures |mbr| == dev.sectorSize && InBounds(old(dev.slots), |dev.view|) && dev.faults == old(dev.faults) ==> ok
    ensures dev.faults >= old(dev.faults)
  {
    ghost var ss := dev.sectorSize;
    FlatLength(dev.view, ss);
    MulMonotone(ss, |dev.view|, Buffers.INVALID);
    ZeroAddress(dev.sectorSizeShift);
    ghost var done;
    ok, done := dev.Write(0, mbr);
    if |mbr| == ss && |dev.view| > 0 && (dev.buffers != [] || ok) {
      assert mbr[..|mbr|] == mbr;
      OneSectorWritten(old(dev.view), dev.view, ss, 0, 0, mbr[..done]);
    }
    if ok {
      assert mbr[..|mbr|] == mbr;
      ok := dev.Sync();
    }
  }

  lemma ZeroAddress(shift: nat)
    ensures Shift(0, shift) == 0 && Mask(0, shift) == 0
    ensures Shift(Pow2(shift), shift) == 1 && Mask(Pow2(shift), shift) == 0
  {
    ShiftAndMaskUnique(0, shift, 0, 0);
    ShiftAndMaskUnique(Pow2(shift), shift, 1, 0);
  }

  /** Partitions a disk with at most four partitions. The sector size is the configured one; whether it is that
      of the device is not checked. */
  method FormatDisk(dev: BlockDevice, table: array<Part>, shift: nat) returns (err: Error, hangs: bool)
    requires dev.Valid() && table !in dev.Parts && Supported(shift) && Pow2(shift) <= |Flat(dev.view)|
    modifies dev`medium, dev`faults, dev`rawReads, dev`rawWrites, dev`slots, dev`view, dev`past, dev.Parts, table
    modifies dev`rawSyncs, dev`syncedWrites
    ensures dev.Valid() && |dev.view| == old(|dev.view|) && dev.faults >= old(dev.faults)
    ensures err == Success && !hangs ==> dev.rawSyncs > old(dev.rawSyncs) && dev.syncedWrites == dev.rawWrites
    ensures table.Length == 0 || table.Length > 4 ==>
              err == BadParam && !hangs && dev.view == old(dev.view) && table[..] == old(table[..])
    ensures 1 <= table.Length <= 4 ==>
              var v := Validated(old(table[..]), MbrSpace(shift, |old(dev.view)|));
              && hangs == v.Hangs? && (hangs || v.err != Success ==> dev.view == old(dev.view))
              && (!hangs ==>
                    && table[..] == v.parts
                    && (if v.err != Success then err == v.err else err == Success || err == WriteFailure)
                    && (v.err == Success && shift == dev.sectorSizeShift && dev.faults == old(dev.faults) ==>
                          (InBounds(old(dev.slots), |dev.view|) ==> err == Success)))
    ensures err == Success && !hangs ==>
              var mbr := BootSector(table[..], shift, HeadsFor(|old(dev.view)|));
              && dev.medium == dev.view && Flat(dev.view) == Overlay(Flat(old(dev.view)), 0, mbr)
              && InBounds(dev.slots, |dev.view|)
              && (shift == dev.sectorSizeShift && |old(dev.view)| > 0 ==> dev.view == old(dev.view)[0 := mbr])
    ensures shift == dev.sectorSizeShift && |old(dev.view)| > 0 ==> SameOutside(old(dev.view), dev.view, 0, 1)
  {
    if table.Length == 0 || table.Length > 4 {
      return BadParam, false;
    }
    GeometryFacts(shift);
    var driveSectors := |dev.medium|;
    err, hangs := Validate(table, MbrSpace(shift, driveSectors));
    if err != Success || hangs {
      return;
    }
    var heads := Heads(driveSectors);
    var mbr := BuildBootSector(table[..], shift, heads);
    var ok := WriteBootSector(dev, mbr);
    err := if ok then Success else WriteFailure;
  }
}
