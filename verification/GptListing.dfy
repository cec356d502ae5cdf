/** What a scan lists of any partition table, in terms of the bytes of its entries. */
module GptListings {
  import opened Bits
  import opened Bytes
  import opened Sectors
  import opened PartInfos
  import opened GptLayout
  import opened GptImage
  import opened ScanSpec
  import opened DiskBytes
  import opened Picks
  import GptRoundTrip

  /** The sector of entry k is on the disk. */
  predicate Present(v: seq<Sector>, lba: nat, k: nat, shift: nat)
    requires Supported(shift)
  {
    PerSectorPositive(shift);
    lba + k / PerSector(shift) < |v|
  }

  lemma CellFits(k: nat, shift: nat)
    requires Supported(shift)
    ensures PerSector(shift) > 0 && (k % PerSector(shift)) * ENTRY_SIZE + ENTRY_SIZE <= Pow2(shift)
  {
    GeometryFacts(shift);
    MulMonotone(ENTRY_SIZE, k % PerSector(shift) + 1, PerSector(shift));
  }

  /** The 128 bytes of entry k. */
  function CellOf(v: seq<Sector>, lba: nat, k: nat, shift: nat): (c: seq<byte>)
    requires Supported(shift) && Uniform(v, Pow2(shift)) && Present(v, lba, k, shift)
    ensures |c| == ENTRY_SIZE
  {
    CellFits(k, shift);
    CellAt(v, lba, k, PerSector(shift))
  }

  /** Where an entry says its partition starts, in bytes. */
  function StartOf(c: seq<byte>, shift: nat): nat
    requires |c| == ENTRY_SIZE
  {
    (FromLE(c[32..40]) * Pow2(shift)) % WORD
  }

  /** An entry is listed if it has a type, and either that is known or the first sector can be read. */
  predicate Lists(cfg: Config, v: seq<Sector>, c: seq<byte>, shift: nat)
    requires |c| == ENTRY_SIZE
  {
    && (exists i | 0 <= i < 16 :: c[i] != 0)
    && (cfg.known(c[0..16]) || Shift(StartOf(c, shift), shift) < |v|)
  }

  predicate Listed(cfg: Config, v: seq<Sector>, lba: nat, k: nat, shift: nat)
    requires Supported(shift) && Uniform(v, Pow2(shift))
  {
    Present(v, lba, k, shift) && Lists(cfg, v, CellOf(v, lba, k, shift), shift)
  }

  /** Which of the first m entries are listed. */
  ghost function Flags(cfg: Config, v: seq<Sector>, lba: nat, m: nat, shift: nat): (flags: seq<bool>)
    requires Supported(shift) && Uniform(v, Pow2(shift))
    ensures |flags| == m && forall k | 0 <= k < m :: flags[k] == Listed(cfg, v, lba, k, shift)
  {
    seq(m, k requires 0 <= k < m => Listed(cfg, v, lba, k, shift))
  }

  /** The volume whose first sector an entry of unknown type points at, if there is one. */
  function VolumeAt(cfg: Config, v: seq<Sector>, c: seq<byte>, shift: nat): Option<Volume>
    requires |c| == ENTRY_SIZE
  {
    var first := Shift(StartOf(c, shift), shift);
    if cfg.known(c[0..16]) || first >= |v| then None else Identify(cfg, v[first])
  }

  /** What a partition that is listed has from its entry: type, identifier, name and place, except that a
      volume has a size of its own. */
  ghost predicate Tells(cfg: Config, v: seq<Sector>, c: seq<byte>, p: Part, shift: nat)
    requires |c| == ENTRY_SIZE
  {
    && p.info.typeGuid == c[0..16] && p.info.uniqueGuid == c[16..32] && NameIn(c, p.info.name) && p.info.sysind == 0
    && p.offset == StartOf(c, shift)
    && p.size == match VolumeAt(cfg, v, c, shift)
                 case Some(volume) => volume.size
                 case None => (((1 + FromLE(c[40..48]) - FromLE(c[32..40])) % WORD) * Pow2(shift)) % WORD
  }

  lemma SectorOf(lba: nat, q: nat, k: nat, shift: nat)
    requires q <= k && (lba + k) * Pow2(shift) < WORD
    ensures Wrapped(U64(lba + q), shift) == lba + q
  {
    MulMonotone(Pow2(shift), lba + q, lba + k);
    MulMonotone(lba + q, 1, Pow2(shift));
    WrappedSmall(lba + q, shift);
  }

  lemma EntryOfCell(v: seq<Sector>, lba: nat, k: nat, shift: nat)
    requires Supported(shift) && Uniform(v, Pow2(shift)) && (lba + k) * Pow2(shift) < WORD
    ensures EntrySector(lba, k, shift) < |v| <==> Present(v, lba, k, shift)
    ensures Present(v, lba, k, shift) ==>
              EntryIn(v[EntrySector(lba, k, shift)], k, shift) == ReadEntry(CellOf(v, lba, k, shift))
  {
    PerSectorPositive(shift);
    GptRoundTrip.QuotientSmall(k, PerSector(shift));
    SectorOf(lba, k / PerSector(shift), k, shift);
  }

  lemma EntryTells(cfg: Config, v: seq<Sector>, c: seq<byte>, shift: nat)
    requires |c| == ENTRY_SIZE
    ensures Skipped(cfg, v, ReadEntry(c), shift) <==> !Lists(cfg, v, c, shift)
    ensures Tells(cfg, v, c, GptPart(cfg, v, ReadEntry(c), shift), shift)
  {
    var e := ReadEntry(c);
    EntryReads(c);
    U64IsRemainder(e.start * Pow2(shift));
    U64IsRemainder(1 + e.end - e.start);
    U64IsRemainder(U64(1 + e.end - e.start) * Pow2(shift));
    assert c[0..16] == NO_GUID <==> forall i | 0 <= i < 16 :: c[i] == 0;
  }

  /** The table on the disk holds its first m entries, and if that is not all, not the next. */
  ghost predicate PresentUpTo(v: seq<Sector>, lba: nat, num: nat, m: nat, shift: nat)
    requires Supported(shift)
  {
    && m <= num && (forall k | 0 <= k < m :: Present(v, lba, k, shift))
    && (m < num ==> !Present(v, lba, m, shift))
  }

  /** What comes of entry k. */
  lemma ListingStep(cfg: Config, v: seq<Sector>, shift: nat, lba: nat, num: nat, k: nat)
    requires Supported(shift) && Uniform(v, Pow2(shift)) && (lba + num) * Pow2(shift) < WORD && k < num
    ensures var l := GptFrom(cfg, v, shift, lba, num, k);
            if !Present(v, lba, k, shift) then l == Listing([], false)
            else
              var c, rest := CellOf(v, lba, k, shift), GptFrom(cfg, v, shift, lba, num, k + 1);
              l == if Lists(cfg, v, c, shift) then Cons(GptPart(cfg, v, ReadEntry(c), shift), rest) else rest
  {
    MulMonotone(Pow2(shift), lba + k, lba + num);
    EntryOfCell(v, lba, k, shift);
    if Present(v, lba, k, shift) {
      EntryTells(cfg, v, CellOf(v, lba, k, shift), shift);
    }
  }

  ghost function Items(cfg: Config, v: seq<Sector>, lba: nat, m: nat, shift: nat): (items: seq<Part>)
    requires Supported(shift) && Uniform(v, Pow2(shift)) && forall k | 0 <= k < m :: Present(v, lba, k, shift)
    ensures |items| == m
    ensures forall k | 0 <= k < m :: items[k] == GptPart(cfg, v, ReadEntry(CellOf(v, lba, k, shift)), shift)
  {
    seq(m, k requires 0 <= k < m => GptPart(cfg, v, ReadEntry(CellOf(v, lba, k, shift)), shift))
  }

  lemma ListingEnds(cfg: Config, v: seq<Sector>, shift: nat, lba: nat, num: nat, m: nat)
    requires Supported(shift) && Uniform(v, Pow2(shift)) && (lba + num) * Pow2(shift) < WORD
    requires PresentUpTo(v, lba, num, m, shift)
    ensures GptFrom(cfg, v, shift, lba, num, m) == Listing([], m == num)
  {
    if m < num {
      ListingStep(cfg, v, shift, lba, num, m);
    }
  }

  lemma {:induction false} ListingFrom(cfg: Config, v: seq<Sector>, shift: nat, lba: nat, num: nat, m: nat, k: nat)
    requires Supported(shift) && Uniform(v, Pow2(shift)) && (lba + num) * Pow2(shift) < WORD
    requires PresentUpTo(v, lba, num, m, shift) && k <= m
    ensures GptFrom(cfg, v, shift, lba, num, k) ==
            Listing(Pick(Flags(cfg, v, lba, m, shift)[k..], Items(cfg, v, lba, m, shift)[k..]), m == num)
    decreases m - k
  {
    if k == m {
      ListingEnds(cfg, v, shift, lba, num, m);
    } else {
      ListingFrom(cfg, v, shift, lba, num, m, k + 1);
      ListingStep(cfg, v, shift, lba, num, k);
      PickStep(Flags(cfg, v, lba, m, shift), Items(cfg, v, lba, m, shift), k);
    }
  }

  /** A listing of the first m entries: as many partitions as are listed among them, each in the
      place that it has among those. */
  ghost predicate ListsInOrder(cfg: Config, v: seq<Sector>, lba: nat, m: nat, shift: nat, parts: seq<Part>)
    requires Supported(shift) && Uniform(v, Pow2(shift))
  {
    && |parts| == Rank(Flags(cfg, v, lba, m, shift), m)
    && forall k: nat | k < m && Listed(cfg, v, lba, k, shift) :: Found(cfg, v, lba, k, m, shift, parts)
  }

  ghost predicate Found(cfg: Config, v: seq<Sector>, lba: nat, k: nat, m: nat, shift: nat, parts: seq<Part>)
    requires Supported(shift) && Uniform(v, Pow2(shift)) && Present(v, lba, k, shift) && k < m
  {
    var i := Rank(Flags(cfg, v, lba, m, shift), k);
    i < |parts| && Tells(cfg, v, CellOf(v, lba, k, shift), parts[i], shift)
  }

  /** Any table lists every entry that has a type and can be listed, in order, up to the first sector of it that is
      not on the disk, where the scan ends with an error. */
  lemma TableListed(cfg: Config, v: seq<Sector>, shift: nat, lba: nat, num: nat, m: nat)
    requires Supported(shift) && Uniform(v, Pow2(shift)) && (lba + num) * Pow2(shift) < WORD
    requires PresentUpTo(v, lba, num, m, shift)
    ensures var l := GptFrom(cfg, v, shift, lba, num, 0);
            (l.ok <==> m == num) && ListsInOrder(cfg, v, lba, m, shift, l.parts)
  {
    var flags, items, parts := Flags(cfg, v, lba, m, shift), Items(cfg, v, lba, m, shift),
      GptFrom(cfg, v, shift, lba, num, 0).parts;
    ListingFrom(cfg, v, shift, lba, num, m, 0);
    assert flags[0..] == flags && items[0..] == items;
    PickAll(flags, items);
    forall k: nat | k < m && Listed(cfg, v, lba, k, shift) ensures Found(cfg, v, lba, k, m, shift, parts) {
      PickAt(flags, items, k);
      EntryTells(cfg, v, CellOf(v, lba, k, shift), shift);
    }
  }

  /** The first sector is no volume, is signed, and announces a GPT. */
  ghost predicate AnnouncesGpt(cfg: Config, s: Sector) {
    |s| >= 512 && Identify(cfg, s) == None && s[510] == 0x55 && s[511] == 0xAA && s[450] == 0xEE
  }

  lemma ScanOfGpt(cfg: Config, v: seq<Sector>, shift: nat, lba: nat, num: nat)
    requires Supported(shift) && Scannable(v, shift) && |v| >= 2 && AnnouncesGpt(cfg, v[0])
    requires |v[1]| >= HEADER_SIZE && HeaderOk(v[1])
    requires lba == FromLE(v[1][72..80]) && num == FromLE(v[1][80..84])
    ensures Scan(cfg, v, shift) == GptFrom(cfg, v, shift, lba, num, 0)
  {
    BootBytes(v[0]);
  }

  /** So does the scan of a disk with a GPT, however it came to be there. */
  lemma GptScanned(cfg: Config, v: seq<Sector>, shift: nat, lba: nat, num: nat, m: nat)
    requires Supported(shift) && Scannable(v, shift) && |v| >= 2 && AnnouncesGpt(cfg, v[0])
    requires |v[1]| >= HEADER_SIZE && HeaderOk(v[1])
    requires Field(v[1], 72, 8, lba) && lba < WORD && Field(v[1], 80, 4, num) && num < U32
    requires (lba + num) * Pow2(shift) < WORD && PresentUpTo(v, lba, num, m, shift)
    ensures var l := Scan(cfg, v, shift); (l.ok <==> m == num) && ListsInOrder(cfg, v, lba, m, shift, l.parts)
  {
    assert Pow256(4) == U32 && Pow256(8) == WORD;
    NumberOfField(v[1], 72, 8, lba);
    NumberOfField(v[1], 80, 4, num);
    ScanOfGpt(cfg, v, shift, lba, num);
    TableListed(cfg, v, shift, lba, num, m);
  }

  lemma NumberOfField(s: seq<byte>, at: nat, n: nat, x: nat)
    requires Field(s, at, n, x) && x < Pow256(n)
    ensures FromLE(s[at..at + n]) == x
  {
    var f := LE(n, x);
    LERoundTrip(n, x);
    forall i | 0 <= i < n ensures s[at..at + n][i] == f[i] {
      LEByte(n, x, i);
    }
    assert s[at..at + n] == f;
  }

  // Disks without a table to go through

  /** What a scan makes of the other disks: one that is a volume lists just that, one that is not signed lists
      nothing, and one whose announced GPT has a header that is refused, or none, ends in an error. */
  lemma OtherDisks(cfg: Config, v: seq<Sector>, shift: nat)
    requires Scannable(v, shift)
    ensures !Supported(shift) || |v| == 0 ==> Scan(cfg, v, shift).parts == [] && !Scan(cfg, v, shift).ok
    ensures Supported(shift) && |v| > 0 ==>
              match Identify(cfg, v[0])
              case Some(volume) =>
                var p := Part(0, volume.size, Info(volume.name, Zeros(16), Zeros(16), 0));
                Scan(cfg, v, shift).parts == [p] && Scan(cfg, v, shift).ok
              case None =>
                && |v[0]| >= 512
                && (!(v[0][510] == 0x55 && v[0][511] == 0xAA) ==>
                      Scan(cfg, v, shift).parts == [] && Scan(cfg, v, shift).ok)
                && (AnnouncesGpt(cfg, v[0]) && (|v| < 2 || (|v[1]| >= HEADER_SIZE && !HeaderOk(v[1]))) ==>
                      Scan(cfg, v, shift).parts == [] && !Scan(cfg, v, shift).ok)
  {
    if Supported(shift) && |v| > 0 {
      BootBytes(v[0]);
    }
  }
}
