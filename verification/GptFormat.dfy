/** Writing a GPT: the entries go out sector by sector to both tables while their checksum is accumulated, then the
    two headers and the protective boot record. */
module GptFormat {
  import opened Bits
  import opened Bytes
  import opened Sectors
  import opened PartInfos
  import opened Validation
  import opened Validator
  import opened Crc32s
  import opened Cache
  import opened BlockDevices
  import opened SectorIO
  import opened GptLayout
  import opened MbrLayout
  import opened GptImage

  lemma PatchInside(s: seq<byte>, at: nat, a: seq<byte>, w: seq<byte>, c: seq<byte>)
    requires at + |a| + |w| + |c| <= |s|
    ensures Patch(Patch(s, at, a + Zeros(|w|) + c), at + |a|, w) == Patch(s, at, a + w + c)
  {
  }

  lemma ZerosSplit(a: seq<byte>, m: nat, n: nat)
    requires m <= n
    ensures a + Zeros(n) == a + Zeros(m) + Zeros(n - m)
  {
  }

  /** One more character stored behind what is there of an entry. */
  lemma CharacterStored(s: seq<byte>, at: nat, done: seq<byte>, w: seq<byte>, pos: nat, left: nat, left': nat)
    requires |w| == 2 && left == left' + 2 && pos == at + |done| && pos + left <= |s|
    ensures Patch(Patch(s, at, done + Zeros(left)), pos, w) == Patch(s, at, (done + w) + Zeros(left'))
  {
    ZerosSplit(done, 2, left);
    PatchInside(s, at, done, w, Zeros(left'));
  }

  /** What the name field holds from its j-th character on. */
  function NameFrom(name: seq<byte>, j: nat, signedChar: bool): (r: seq<byte>)
    requires j <= NAME_LENGTH && j <= |name|
    ensures |r| == 2 * (NAME_LENGTH - j)
  {
    Unicode(Cut(name[j..], NAME_LENGTH - j), NAME_LENGTH - j, signedChar)
  }

  lemma NameStep(done: seq<byte>, name: seq<byte>, j: nat, signedChar: bool)
    requires j < NAME_LENGTH && j < |name| && name[j] != 0
    ensures done + NameFrom(name, j, signedChar) == done + Wide(name[j], signedChar) + NameFrom(name, j + 1, signedChar)
  {
    var rest, cut := name[j..], Cut(name[j..], NAME_LENGTH - j);
    assert rest[1..] == name[j + 1..];
    assert cut[0] == name[j] && cut[1..] == Cut(name[j + 1..], NAME_LENGTH - (j + 1));
  }

  lemma NameEnds(name: seq<byte>, j: nat, signedChar: bool)
    requires j <= NAME_LENGTH && j <= |name|
    requires j == NAME_LENGTH || j == |name| || name[j] == 0
    ensures NameFrom(name, j, signedChar) == Zeros(2 * (NAME_LENGTH - j))
  {
  }

  /** The name, one character at a time, behind the fixed fields. */
  method StoreName(work: array<byte>, at: nat, name: seq<byte>, signedChar: bool, ghost before: seq<byte>,
                   ghost head: seq<byte>)
    requires |before| == work.Length && |head| == 56 && at + ENTRY_SIZE <= work.Length
    requires work[..] == Patch(before, at, head + Zeros(2 * NAME_LENGTH))
    modifies work
    ensures work[..] == Patch(before, at, head + Unicode(Cut(name, NAME_LENGTH), NAME_LENGTH, signedChar))
  {
    ghost var done := head;
    var j := 0;
    assert name[0..] == name;
    while j < NAME_LENGTH && j < |name| && name[j] != 0
      invariant j <= NAME_LENGTH && j <= |name| && |done| == 56 + 2 * j
      invariant work[..] == Patch(before, at, done + Zeros(2 * (NAME_LENGTH - j)))
      invariant head + NameFrom(name, 0, signedChar) == done + NameFrom(name, j, signedChar)
    {
      var w := Wide(name[j], signedChar);
      CharacterStored(before, at, done, w, at + 56 + 2 * j, 2 * (NAME_LENGTH - j), 2 * (NAME_LENGTH - (j + 1)));
      NameStep(done, name, j, signedChar);
      StoreBytes(work, at + 56 + 2 * j, w);
      done := done + w;
      j := j + 1;
    }
    NameEnds(name, j, signedChar);
  }

  /** The entry of a partition goes into the buffer. */
  method StoreEntry(work: array<byte>, at: nat, p: Part, shift: nat, signedChar: bool)
    requires at + ENTRY_SIZE <= work.Length
    modifies work
    ensures work[..] == Patch(old(work[..]), at, EntryBytes(p, shift, signedChar))
  {
    var head := EntryHead(p, shift);
    StoreBytes(work, at, head + Zeros(2 * NAME_LENGTH));
    StoreName(work, at, p.info.name, signedChar, old(work[..]), head);
  }

  // Filling a sector of entries

  /** The buffer holds i cells, counted from cell from on, and zeros behind them. */
  ghost predicate Filled(w: seq<byte>, cells: seq<seq<byte>>, from: nat, i: nat) {
    && from + i <= |cells| && i * ENTRY_SIZE <= |w|
    && w == Run(cells, from, i) + Zeros(|w| - i * ENTRY_SIZE)
  }

  lemma FilledStart(cells: seq<seq<byte>>, from: nat, n: nat)
    requires from <= |cells|
    ensures Filled(Zeros(n), cells, from, 0)
  {
    assert Run(cells, from, 0) == [];
    assert Zeros(n) == [] + Zeros(n - 0);
  }

  lemma FilledStep(w: seq<byte>, cells: seq<seq<byte>>, from: nat, i: nat)
    requires Filled(w, cells, from, i) && from + i < |cells| && Uniform(cells, ENTRY_SIZE)
    requires (i + 1) * ENTRY_SIZE <= |w|
    ensures Filled(Patch(w, i * ENTRY_SIZE, cells[from + i]), cells, from, i + 1)
    ensures cells[from + i] == Zeros(ENTRY_SIZE) ==> Patch(w, i * ENTRY_SIZE, cells[from + i]) == w
    ensures Patch(w, i * ENTRY_SIZE, cells[from + i])[i * ENTRY_SIZE..(i + 1) * ENTRY_SIZE] == cells[from + i]
  {
    RunStep(cells, from, i);
    NextCell(w, Run(cells, from, i), cells[from + i], i * ENTRY_SIZE);
  }

  /** The same, counted from the k-th cell, which comes next. */
  lemma FilledWith(w: seq<byte>, w': seq<byte>, cells: seq<seq<byte>>, k: nat, i: nat, at: nat)
    requires i <= k < |cells| && Uniform(cells, ENTRY_SIZE) && at == i * ENTRY_SIZE && at + ENTRY_SIZE <= |w|
    requires Filled(w, cells, k - i, i)
    requires w' == Patch(w, at, cells[k]) || (cells[k] == Zeros(ENTRY_SIZE) && w' == w)
    ensures Filled(w', cells, k - i, i + 1) && |w'| == |w| && w'[at..at + ENTRY_SIZE] == cells[k]
  {
    FilledStep(w, cells, k - i, i);
  }

  lemma NextCell(w: seq<byte>, run: seq<byte>, cell: seq<byte>, at: nat)
    requires |run| == at && at + |cell| <= |w| && w == run + Zeros(|w| - at)
    ensures Patch(w, at, cell) == run + cell + Zeros(|w| - (at + |cell|))
    ensures cell == Zeros(|cell|) ==> Patch(w, at, cell) == w
    ensures Patch(w, at, cell)[at..at + |cell|] == cell
  {
  }

  /** One round of the entry loop, up to the checksum. */
  method AddEntry(work: array<byte>, i: nat, parts: seq<Part>, k: nat, shift: nat, signedChar: bool, bcc: bv32,
                  ghost cells: seq<seq<byte>>)
    returns (bcc': bv32)
    requires (i + 1) * ENTRY_SIZE <= work.Length && i <= k < |cells| && Uniform(cells, ENTRY_SIZE)
    requires cells[k] == EntryCell(parts, k, shift, signedChar)
    requires i > 0 ==> Filled(work[..], cells, k - i, i)
    modifies work
    ensures Filled(work[..], cells, k - i, i + 1)
    ensures bcc' == Crc32(bcc, cells[k])
  {
    if i == 0 {
      StoreBytes(work, 0, Zeros(work.Length));
      assert work[..] == Zeros(work.Length);
      FilledStart(cells, k, work.Length);
    }
    ghost var before, at := work[..], i * ENTRY_SIZE;
    if k < |parts| {
      StoreEntry(work, i * ENTRY_SIZE, parts[k], shift, signedChar);
    }
    ghost var after := work[..];
    FilledWith(before, after, cells, k, i, at);
    assert work[i * ENTRY_SIZE..(i + 1) * ENTRY_SIZE] == after[at..at + ENTRY_SIZE];
    bcc' := ComputeCrc32(bcc, work[i * ENTRY_SIZE..(i + 1) * ENTRY_SIZE]);
  }

  // Writing both tables

  ghost predicate SameWithin(v0: seq<Sector>, v: seq<Sector>, lo: nat, hi: nat) {
    |v| == |v0| && forall s | lo <= s < hi && s < |v| :: v[s] == v0[s]
  }

  /** The first m sectors of t are in place at sector 2 and at the backup, and nothing else has changed. */
  ghost predicate Written(v0: seq<Sector>, v: seq<Sector>, t: seq<Sector>, m: nat, backup: nat)
    requires m <= |t| && 2 + |t| <= backup && backup + |t| <= |v0|
  {
    && |v| == |v0|
    && (forall q | 0 <= q < m :: v[2 + q] == t[q])
    && (forall q | 0 <= q < m :: v[backup + q] == t[q])
    && (forall s | 0 <= s < |v| && !(2 <= s < 2 + m) && !(backup <= s < backup + m) :: v[s] == v0[s])
  }

  lemma WrittenStep(v0: seq<Sector>, v: seq<Sector>, t: seq<Sector>, m: nat, backup: nat)
    requires m < |t| && 2 + |t| <= backup && backup + |t| <= |v0|
    requires Written(v0, v, t, m, backup)
    ensures Written(v0, v[2 + m := t[m]][backup + m := t[m]], t, m + 1, backup)
  {
  }

  lemma UntouchedStep(v0: seq<Sector>, v: seq<Sector>, w: seq<Sector>, s: nat, lo: nat, hi: nat)
    requires SameWithin(v0, v, lo, hi) && SameOutside(v, w, s, 1) && !(lo <= s < hi)
    ensures SameWithin(v0, w, lo, hi)
  {
  }

  /** Writes a filled buffer to both tables. */
  method WriteBoth(dev: BlockDevice, work: array<byte>, m: nat, backup: nat, ghost v0: seq<Sector>,
                   ghost t: seq<Sector>)
    returns (ok: bool)
    requires dev.Valid() && work.Length == dev.sectorSize && work !in dev.Parts
    requires m < |t| && 2 + |t| <= backup && backup + |t| <= |v0| && work[..] == t[m]
    requires Written(v0, dev.view, t, m, backup)
    modifies dev`medium, dev`faults, dev`rawReads, dev`rawWrites, dev`slots, dev`view, dev`past, dev.Parts
    ensures dev.Valid()
    ensures ok ==> Written(v0, dev.view, t, m + 1, backup)
    ensures SameWithin(v0, dev.view, 2 + |t|, backup)
    ensures InBounds(old(dev.slots), |dev.view|) ==> InBounds(dev.slots, |dev.view|)
    ensures InBounds(old(dev.slots), |dev.view|) && dev.faults == old(dev.faults) ==> ok
    ensures dev.faults >= old(dev.faults)
  {
    WrittenStep(v0, dev.view, t, m, backup);
    ok := WriteSector(dev, 2 + m, work[..]);
    UntouchedStep(v0, old(dev.view), dev.view, 2 + m, 2 + |t|, backup);
    if !ok {
      return;
    }
    ghost var between := dev.view;
    ok := WriteSector(dev, backup + m, work[..]);
    UntouchedStep(v0, between, dev.view, backup + m, 2 + |t|, backup);
  }

  lemma CellsPrefix(cells: seq<seq<byte>>, bcc: bv32, k: nat)
    requires k < |cells| && Uniform(cells, ENTRY_SIZE) && bcc == Crc32(0, Run(cells, 0, k))
    ensures Crc32(bcc, cells[k]) == Crc32(0, Run(cells, 0, k + 1))
  {
    RunStep(cells, 0, k);
    Crc32Chain(0, Run(cells, 0, k), cells[k]);
  }

  lemma LastRowIs(parts: seq<Part>, shift: nat, signedChar: bool, m: nat)
    requires Supported(shift) && m + 1 == TableSectors(shift)
    ensures TableOf(parts, shift, signedChar)[m] == LastRow(parts, shift, signedChar)
  {
    GeometryFacts(shift);
    LastRowOf(Cells(parts, shift, signedChar), PerSector(shift), m);
  }

  lemma LastRowOf(cells: seq<seq<byte>>, per: nat, m: nat)
    requires (m + 1) * per == |cells| && per <= |cells|
    ensures Row(cells, per, m + 1, m) == Run(cells, |cells| - per, per)
  {
    ProductStep(per, m);
  }

  /** Where the loop is in the table: k entries done, m of its sectors written and i entries in the buffer. */
  ghost predicate At(k: nat, m: nat, i: nat, per: nat) {
    k == m * per + i && i < per
  }

  lemma AtNext(k: nat, m: nat, i: nat, per: nat, n: nat)
    requires At(k, m, i, per) && k < n * per
    ensures k % per == i && k / per == m && m < n
    ensures if i + 1 == per then At(k + 1, m + 1, 0, per) else At(k + 1, m, i + 1, per)
  {
    DivModUnique(k, per, m, i);
    ProductStep(per, m);
    if m >= n {
      MulMonotone(per, n, m);
    }
  }

  /** Which sector of the table an entry is in, and where in it. */
  method Locate(k: nat, per: nat, ghost m: nat, ghost i: nat, ghost n: nat) returns (relative: nat, at: nat)
    requires At(k, m, i, per) && k < n * per
    ensures relative == m < n && at == i < per
    ensures if i + 1 == per then At(k + 1, m + 1, 0, per) else At(k + 1, m, i + 1, per)
  {
    AtNext(k, m, i, per, n);
    relative, at := k / per, k % per;
  }

  lemma AtEnd(m: nat, i: nat, per: nat, n: nat)
    requires At(n * per, m, i, per)
    ensures m == n && i == 0
  {
    SplitUnique(per, n, 0, m, i);
  }

  /** What the entry loop keeps. */
  ghost predicate Looping(w: seq<byte>, bcc: bv32, cells: seq<seq<byte>>, t: seq<Sector>, per: nat, k: nat, m: nat,
                          i: nat) {
    && i <= k <= |cells| && At(k, m, i, per) && m <= |t|
    && |w| == per * ENTRY_SIZE && bcc == Crc32(0, Run(cells, 0, k))
    && (i > 0 ==> Filled(w, cells, k - i, i))
    && (i == 0 && m > 0 ==> w == t[m - 1])
  }

  lemma LoopDone(w: seq<byte>, bcc: bv32, cells: seq<seq<byte>>, t: seq<Sector>, per: nat, k: nat, m: nat, i: nat)
    requires Looping(w, bcc, cells, t, per, k, m, i) && k == |cells| == |t| * per && k > 0
    ensures m == |t| > 0 && w == t[m - 1] && bcc == Crc32(0, Flat(cells))
  {
    AtEnd(m, i, per, |t|);
    assert cells[0..k] == cells;
  }

  lemma CrcOfNothing(cells: seq<seq<byte>>)
    ensures Crc32(0, Run(cells, 0, 0)) == 0
  {
    assert cells[0..0] == [];
  }

  /** The entry loop. */
  method WriteTables(dev: BlockDevice, work: array<byte>, parts: seq<Part>, signedChar: bool, backup: nat)
    returns (ok: bool, bcc: bv32)
    requires dev.Valid() && work.Length == dev.sectorSize && work !in dev.Parts
    requires Supported(dev.sectorSizeShift) && 2 + TableSectors(dev.sectorSizeShift) <= backup
    requires backup + TableSectors(dev.sectorSizeShift) <= |dev.view|
    modifies dev`medium, dev`faults, dev`rawReads, dev`rawWrites, dev`slots, dev`view, dev`past, dev.Parts, work
    ensures dev.Valid()
    ensures ok ==> Written(old(dev.view), dev.view, TableOf(parts, dev.sectorSizeShift, signedChar),
                           TableSectors(dev.sectorSizeShift), backup)
    ensures ok ==> work[..] == LastRow(parts, dev.sectorSizeShift, signedChar)
    ensures ok ==> bcc == Crc32(0, Flat(Cells(parts, dev.sectorSizeShift, signedChar)))
    ensures SameWithin(old(dev.view), dev.view, 2 + TableSectors(dev.sectorSizeShift), backup)
    ensures InBounds(old(dev.slots), |dev.view|) ==> InBounds(dev.slots, |dev.view|)
    ensures InBounds(old(dev.slots), |dev.view|) && dev.faults == old(dev.faults) ==> ok
    ensures dev.faults >= old(dev.faults)
  {
    var shift := dev.sectorSizeShift;
    ghost var cells, t := Cells(parts, shift, signedChar), TableOf(parts, shift, signedChar);
    ghost var m, i := 0, 0;
    GeometryFacts(shift);
    var entriesPerSector := dev.sectorSize / ENTRY_SIZE;
    bcc := 0;
    var partitionIndex := 0;
    ok := true;
    CrcOfNothing(cells);
    while partitionIndex < ITEMS
      invariant dev.Valid() && Looping(work[..], bcc, cells, t, entriesPerSector, partitionIndex, m, i)
      invariant Written(old(dev.view), dev.view, t, m, backup)
      invariant InBounds(old(dev.slots), |dev.view|) ==> InBounds(dev.slots, |dev.view|)
      invariant dev.faults >= old(dev.faults)
      invariant InBounds(old(dev.slots), |dev.view|) && dev.faults == old(dev.faults) ==> ok
    {
      ok, bcc, m, i := TableRound(dev, work, parts, signedChar, backup, entriesPerSector, partitionIndex, bcc,
                                  old(dev.view), cells, t, m, i);
      if !ok {
        return;
      }
      partitionIndex := partitionIndex + 1;
    }
    LoopDone(work[..], bcc, cells, t, entriesPerSector, partitionIndex, m, i);
    LastRowIs(parts, shift, signedChar, m - 1);
  }

  /** A buffer filled with a row's worth of cells is that row of the table. */
  lemma FilledRow(w: seq<byte>, cells: seq<seq<byte>>, per: nat, n: nat, m: nat)
    requires n * per <= |cells| && m < n && |w| == per * ENTRY_SIZE && Filled(w, cells, m * per, per)
    ensures w == Row(cells, per, n, m)
  {
    RowInRange(m, per, n, |cells|);
    assert Zeros(0) == [];
  }

  /** A round that leaves the buffer unfinished, and one that fills it. */
  lemma LoopingOn(w: seq<byte>, bcc: bv32, cells: seq<seq<byte>>, per: nat, n: nat, k: nat, m: nat, i: nat)
    requires n * per == |cells| && k < |cells| && i <= k && At(k, m, i, per) && m < n && |w| == per * ENTRY_SIZE
    requires bcc == Crc32(0, Run(cells, 0, k + 1)) && Filled(w, cells, k - i, i + 1)
    ensures if i + 1 < per then Looping(w, bcc, cells, Rows(cells, per, n), per, k + 1, m, i + 1)
            else w == Row(cells, per, n, m) && Looping(w, bcc, cells, Rows(cells, per, n), per, k + 1, m + 1, 0)
  {
    ProductStep(per, m);
    if i + 1 == per {
      FilledRow(w, cells, per, n, m);
    }
  }

  /** One entry more in the buffer, and in the checksum. */
  method EntryRound(work: array<byte>, parts: seq<Part>, shift: nat, signedChar: bool, per: nat, partitionIndex: nat,
                    bcc: bv32, ghost cells: seq<seq<byte>>, ghost t: seq<Sector>, ghost m: nat, ghost i: nat)
    returns (bcc': bv32, full: bool, relative: nat)
    requires |t| * per == ITEMS && partitionIndex < ITEMS
    requires cells == Cells(parts, shift, signedChar) && t == Rows(cells, per, |t|)
    requires Looping(work[..], bcc, cells, t, per, partitionIndex, m, i)
    modifies work
    ensures m < |t| && relative == m
    ensures if full then work[..] == t[m] && Looping(work[..], bcc', cells, t, per, partitionIndex + 1, m + 1, 0)
            else Looping(work[..], bcc', cells, t, per, partitionIndex + 1, m, i + 1)
  {
    var at;
    relative, at := Locate(partitionIndex, per, m, i, |t|);
    bcc' := AddEntry(work, at, parts, partitionIndex, shift, signedChar, bcc, cells);
    CellsPrefix(cells, bcc, partitionIndex);
    LoopingOn(work[..], bcc', cells, per, |t|, partitionIndex, m, i);
    full := at + 1 == per;
  }

  /** One round of the loop. */
  method TableRound(dev: BlockDevice, work: array<byte>, parts: seq<Part>, signedChar: bool, backup: nat, per: nat,
                    partitionIndex: nat, bcc: bv32, ghost v0: seq<Sector>, ghost cells: seq<seq<byte>>,
                    ghost t: seq<Sector>, ghost m: nat, ghost i: nat)
    returns (ok: bool, bcc': bv32, ghost m': nat, ghost i': nat)
    requires dev.Valid() && work.Length == dev.sectorSize && work !in dev.Parts && |t| * per == ITEMS
    requires cells == Cells(parts, dev.sectorSizeShift, signedChar) && t == Rows(cells, per, |t|)
    requires 2 + |t| <= backup && backup + |t| <= |v0| && partitionIndex < ITEMS
    requires Looping(work[..], bcc, cells, t, per, partitionIndex, m, i)
    requires Written(v0, dev.view, t, m, backup)
    modifies dev`medium, dev`faults, dev`rawReads, dev`rawWrites, dev`slots, dev`view, dev`past, dev.Parts, work
    ensures dev.Valid()
    ensures Looping(work[..], bcc', cells, t, per, partitionIndex + 1, m', i')
    ensures ok ==> Written(v0, dev.view, t, m', backup)
    ensures SameWithin(v0, dev.view, 2 + |t|, backup)
    ensures InBounds(old(dev.slots), |dev.view|) ==> InBounds(dev.slots, |dev.view|)
    ensures InBounds(old(dev.slots), |dev.view|) && dev.faults == old(dev.faults) ==> ok
    ensures dev.faults >= old(dev.faults)
  {
    var full, relative;
    bcc', full, relative := EntryRound(work, parts, dev.sectorSizeShift, signedChar, per, partitionIndex, bcc, cells,
        t, m, i);
    ok := true;
    m', i' := if full then m + 1 else m, if full then 0 else i + 1;
    if full {
      ok := WriteBoth(dev, work, relative, backup, v0, t);
    }
  }

  // Headers

  lemma PatchFront(s: seq<byte>, d: seq<byte>, rest: seq<byte>)
    requires |d| <= |s| && s[|d|..] == rest
    ensures Patch(s, 0, d) == d + rest && Patch(s, 0, d)[..|d|] == d && Patch(s, 0, d)[|d|..] == rest
  {
  }

  /** Puts a header into the buffer, seals it and writes the buffer where the header says it is. */
  method WriteHeader(dev: BlockDevice, work: array<byte>, h: Header, ghost rest: seq<byte>)
    returns (ok: bool, sealed: Header)
    requires dev.Valid() && work.Length == dev.sectorSize >= HEADER_SIZE && work !in dev.Parts
    requires work[HEADER_SIZE..] == rest && h.myLba < |dev.view| && h.crc == 0
    modifies dev`medium, dev`faults, dev`rawReads, dev`rawWrites, dev`slots, dev`view, dev`past, dev.Parts, work
    ensures dev.Valid() && work[HEADER_SIZE..] == rest && sealed == Sealed(h)
    ensures ok ==> dev.view == old(dev.view)[h.myLba := HeaderBytes(Sealed(h)) + rest]
    ensures SameOutside(old(dev.view), dev.view, h.myLba, 1)
    ensures InBounds(old(dev.slots), |dev.view|) ==> InBounds(dev.slots, |dev.view|)
    ensures InBounds(old(dev.slots), |dev.view|) && dev.faults == old(dev.faults) ==> ok
    ensures dev.faults >= old(dev.faults)
  {
    PatchFront(work[..], HeaderBytes(h), rest);
    StoreBytes(work, 0, HeaderBytes(h));
    var crc := ComputeCrc32(0, work[..HEADER_SIZE]);
    sealed := h.(crc := Number(crc));
    PatchFront(work[..], HeaderBytes(sealed), rest);
    StoreBytes(work, 0, HeaderBytes(sealed));
    ok := WriteSector(dev, h.myLba, work[..]);
  }

  /** The tables, the two headers and the boot record together are the whole image. */
  lemma ImageComplete(v0: seq<Sector>, v1: seq<Sector>, v: seq<Sector>, t: seq<Sector>, backup: nat, mbr: Sector,
                      first: Sector, second: Sector)
    requires 2 + |t| <= backup && |v0| == backup + |t| + 1 && Written(v0, v1, t, |t|, backup)
    requires v == v1[1 := first][|v0| - 1 := second][0 := mbr]
    ensures v == Assemble(v0, t, backup, mbr, first, second)
  {
    assert v[2..2 + |t|] == t;
    assert v[backup..backup + |t|] == t;
    ImageUnique(v0, v, t, backup, mbr, first, second);
  }

  /** Both headers, one after the other from the same buffer. */
  method WriteHeaders(dev: BlockDevice, work: array<byte>, h: Header, backup: nat, ghost rest: seq<byte>, ghost lo: nat)
    returns (ok: bool)
    requires dev.Valid() && work.Length == dev.sectorSize >= HEADER_SIZE && work !in dev.Parts
    requires work[HEADER_SIZE..] == rest && h.crc == 0
    requires 2 <= |dev.view| && h.myLba == 1 < lo && backup <= h.alternateLba == |dev.view| - 1
    modifies dev`medium, dev`faults, dev`rawReads, dev`rawWrites, dev`slots, dev`view, dev`past, dev.Parts, work
    ensures dev.Valid() && work[HEADER_SIZE..] == rest
    ensures ok ==>
              var second := h.(myLba := h.alternateLba, alternateLba := h.myLba, entryLba := backup);
              dev.view == old(dev.view)[1 := HeaderBytes(Sealed(h)) + rest]
                          [|old(dev.view)| - 1 := HeaderBytes(Sealed(second)) + rest]
    ensures SameWithin(old(dev.view), dev.view, lo, backup)
    ensures InBounds(old(dev.slots), |dev.view|) ==> InBounds(dev.slots, |dev.view|)
    ensures InBounds(old(dev.slots), |dev.view|) && dev.faults == old(dev.faults) ==> ok
    ensures dev.faults >= old(dev.faults)
  {
    var header;
    ok, header := WriteHeader(dev, work, h, rest);
    ghost var between := dev.view;
    if !ok {
      return;
    }
    header := header.(myLba := header.alternateLba, alternateLba := header.myLba, entryLba := backup, crc := 0);
    ok, header := WriteHeader(dev, work, header, rest);
    UntouchedStep(old(dev.view), between, dev.view, |old(dev.view)| - 1, lo, backup);
  }

  /** The protective boot record, from the same buffer. */
  method WriteBootRecord(dev: BlockDevice, work: array<byte>, mbr: seq<byte>, ghost rest: seq<byte>) returns (ok: bool)
    requires dev.Valid() && work.Length == dev.sectorSize && work !in dev.Parts && |dev.view| > 0
    requires |mbr| <= work.Length && work[|mbr|..] == rest
    modifies dev`medium, dev`faults, dev`rawReads, dev`rawWrites, dev`slots, dev`view, dev`past, dev.Parts, work
    ensures dev.Valid()
    ensures ok ==> dev.view == old(dev.view)[0 := mbr + rest]
    ensures SameOutside(old(dev.view), dev.view, 0, 1)
    ensures InBounds(old(dev.slots), |dev.view|) ==> InBounds(dev.slots, |dev.view|)
    ensures InBounds(old(dev.slots), |dev.view|) && dev.faults == old(dev.faults) ==> ok
    ensures dev.faults >= old(dev.faults)
  {
    PatchFront(work[..], mbr, rest);
    StoreBytes(work, 0, mbr);
    ok := WriteSector(dev, 0, work[..]);
  }

  lemma SameThrough(v0: seq<Sector>, v: seq<Sector>, w: seq<Sector>, lo: nat, hi: nat)
    requires SameWithin(v0, v, lo, hi) && SameWithin(v, w, lo, hi)
    ensures SameWithin(v0, w, lo, hi)
  {
  }

  lemma TailOfTail(w: seq<byte>, a: nat, b: nat)
    requires a <= b <= |w|
    ensures w[b..] == w[a..][b - a..]
  {
  }

  /** The boot record is the last to be written, from a buffer that still holds a header. */
  method FinishFrame(dev: BlockDevice, work: array<byte>, mbr: seq<byte>, backup: nat, ghost rest: seq<byte>,
                     ghost mbrRest: seq<byte>, ghost v0: seq<Sector>, ghost v1: seq<Sector>, ghost t: seq<Sector>,
                     ghost first: Sector, ghost second: Sector)
    returns (ok: bool)
    requires dev.Valid() && work.Length == dev.sectorSize >= HEADER_SIZE && work !in dev.Parts
    requires work[HEADER_SIZE..] == rest && HEADER_SIZE <= |mbr| <= work.Length
    requires rest[|mbr| - HEADER_SIZE..] == mbrRest
    requires 2 + |t| <= backup && |v0| == backup + |t| + 1 && Written(v0, v1, t, |t|, backup)
    requires dev.view == v1[1 := first][|v0| - 1 := second]
    modifies dev`medium, dev`faults, dev`rawReads, dev`rawWrites, dev`slots, dev`view, dev`past, dev.Parts, work
    ensures dev.Valid()
    ensures ok ==> dev.view == Assemble(v0, t, backup, mbr + mbrRest, first, second)
    ensures SameWithin(v0, dev.view, 2 + |t|, backup)
    ensures InBounds(old(dev.slots), |dev.view|) ==> InBounds(dev.slots, |dev.view|)
    ensures InBounds(old(dev.slots), |dev.view|) && dev.faults == old(dev.faults) ==> ok
    ensures dev.faults >= old(dev.faults)
  {
    ghost var w := work[..];
    assert work[HEADER_SIZE..] == w[HEADER_SIZE..] && work[|mbr|..] == w[|mbr|..];
    TailOfTail(w, HEADER_SIZE, |mbr|);
    ok := WriteBootRecord(dev, work, mbr, mbrRest);
    UntouchedStep(v0, old(dev.view), dev.view, 0, 2 + |t|, backup);
    if ok {
      ImageComplete(v0, v1, dev.view, t, backup, mbr + mbrRest, first, second);
    }
  }

  /** What is written once the tables are there: the headers and the boot record. */
  method WriteFrame(dev: BlockDevice, work: array<byte>, h: Header, mbr: seq<byte>, backup: nat, ghost rest: seq<byte>,
                    ghost mbrRest: seq<byte>, ghost v0: seq<Sector>, ghost t: seq<Sector>)
    returns (ok: bool)
    requires dev.Valid() && work.Length == dev.sectorSize >= HEADER_SIZE && work !in dev.Parts
    requires work[HEADER_SIZE..] == rest && HEADER_SIZE <= |mbr| <= work.Length
    requires rest[|mbr| - HEADER_SIZE..] == mbrRest
    requires h.crc == 0 && h.myLba == 1 && h.alternateLba == |v0| - 1
    requires 2 + |t| <= backup && |v0| == backup + |t| + 1 && Written(v0, dev.view, t, |t|, backup)
    modifies dev`medium, dev`faults, dev`rawReads, dev`rawWrites, dev`slots, dev`view, dev`past, dev.Parts, work
    ensures dev.Valid()
    ensures ok ==>
              var second := h.(myLba := h.alternateLba, alternateLba := h.myLba, entryLba := backup);
              dev.view == Assemble(v0, t, backup, mbr + mbrRest, HeaderBytes(Sealed(h)) + rest,
                                   HeaderBytes(Sealed(second)) + rest)
    ensures SameWithin(v0, dev.view, 2 + |t|, backup)
    ensures InBounds(old(dev.slots), |dev.view|) ==> InBounds(dev.slots, |dev.view|)
    ensures InBounds(old(dev.slots), |dev.view|) && dev.faults == old(dev.faults) ==> ok
    ensures dev.faults >= old(dev.faults)
  {
    ghost var v1 := dev.view;
    ok := WriteHeaders(dev, work, h, backup, rest, 2 + |t|);
    SameThrough(v0, v1, dev.view, 2 + |t|, backup);
    if ok {
      ok := FinishFrame(dev, work, mbr, backup, rest, mbrRest, v0, v1, t, dev.view[1], dev.view[|v0| - 1]);
    }
  }

  lemma LeftOverTail(parts: seq<Part>, shift: nat, signedChar: bool)
    requires Supported(shift)
    ensures var rest := LeftOver(parts, HEADER_SIZE, shift, signedChar);
            && |rest| >= MBR_SIZE - HEADER_SIZE
            && rest[MBR_SIZE - HEADER_SIZE..] == LeftOver(parts, MBR_SIZE, shift, signedChar)
  {
    GeometryFacts(shift);
    var last := LastRow(parts, shift, signedChar);
    assert last[MBR_SIZE..] == last[HEADER_SIZE..][MBR_SIZE - HEADER_SIZE..];
  }

  /** The tables and, with their checksum in the header, everything else. */
  method WriteAll(dev: BlockDevice, parts: seq<Part>, signedChar: bool, blank: Header, mbr: seq<byte>, backup: nat,
                  ghost t: seq<Sector>, ghost rest: seq<byte>, ghost mbrRest: seq<byte>, ghost crc: nat)
    returns (ok: bool)
    requires dev.Valid() && Supported(dev.sectorSizeShift) && dev.sectorSize >= MIN_SECTOR_SIZE
    requires t == TableOf(parts, dev.sectorSizeShift, signedChar)
    requires rest == LeftOver(parts, HEADER_SIZE, dev.sectorSizeShift, signedChar)
    requires |mbr| == MBR_SIZE && |rest| + HEADER_SIZE == dev.sectorSize && rest[MBR_SIZE - HEADER_SIZE..] == mbrRest
    requires crc == Checksum(Flat(Cells(parts, dev.sectorSizeShift, signedChar)))
    requires blank.crc == 0 && blank.myLba == 1 && blank.alternateLba == |dev.view| - 1
    requires 2 + |t| <= backup && |dev.view| == backup + |t| + 1
    modifies dev`medium, dev`faults, dev`rawReads, dev`rawWrites, dev`slots, dev`view, dev`past, dev.Parts
    ensures dev.Valid()
    ensures ok ==>
              var h := blank.(arrayCrc := crc);
              var second := h.(myLba := h.alternateLba, alternateLba := h.myLba, entryLba := backup);
              dev.view == Assemble(old(dev.view), t, backup, mbr + mbrRest, HeaderBytes(Sealed(h)) + rest,
                                   HeaderBytes(Sealed(second)) + rest)
    ensures SameWithin(old(dev.view), dev.view, 2 + |t|, backup)
    ensures InBounds(old(dev.slots), |dev.view|) ==> InBounds(dev.slots, |dev.view|)
    ensures InBounds(old(dev.slots), |dev.view|) && dev.faults == old(dev.faults) ==> ok
    ensures dev.faults >= old(dev.faults)
  {
    var work := new byte[dev.sectorSize];
    var bcc;
    ok, bcc := WriteTables(dev, work, parts, signedChar, backup);
    if ok {
      ok := WriteFrame(dev, work, blank.(arrayCrc := Number(bcc)), mbr, backup, rest, mbrRest, old(dev.view), t);
    }
  }

  /** Writing the tables, the headers and the boot record. */
  method WriteGpt(dev: BlockDevice, parts: seq<Part>, guid: Guid, signedChar: bool) returns (ok: bool)
    requires dev.Valid() && Supported(dev.sectorSizeShift) && LargeEnough(dev.sectorSizeShift, |dev.view|)
    modifies dev`medium, dev`faults, dev`rawReads, dev`rawWrites, dev`slots, dev`view, dev`past, dev.Parts
    ensures dev.Valid()
    ensures ok ==> dev.view == FormattedDisk(old(dev.view), parts, dev.sectorSizeShift, guid, signedChar)
    ensures SameWithin(old(dev.view), dev.view, 2 + TableSectors(dev.sectorSizeShift),
                       BackupSector(dev.sectorSizeShift, |old(dev.view)|))
    ensures InBounds(old(dev.slots), |dev.view|) ==> InBounds(dev.slots, |dev.view|)
    ensures InBounds(old(dev.slots), |dev.view|) && dev.faults == old(dev.faults) ==> ok
    ensures dev.faults >= old(dev.faults)
  {
    var shift, driveSectors := dev.sectorSizeShift, |dev.medium|;
    GeometryFacts(shift);
    FirstSectorFacts(shift);
    LeftOverTail(parts, shift, signedChar);
    var n, backup := TableSectors(shift), BackupSector(shift, driveSectors);
    var header := Header(0, 1, driveSectors - 1, 2 + n, backup - 1, guid, 2, ITEMS, ENTRY_SIZE, 0);
    ghost var crc := Checksum(Flat(Cells(parts, shift, signedChar)));
    assert header.(arrayCrc := crc) == PlainHeader(parts, shift, driveSectors, guid, signedChar);
    ok := WriteAll(dev, parts, signedChar, header, MbrBytes([ProtectiveRecord(driveSectors)]), backup,
                   TableOf(parts, shift, signedChar), LeftOver(parts, HEADER_SIZE, shift, signedChar),
                   LeftOver(parts, MBR_SIZE, shift, signedChar), crc);
  }

  function DiskGuid(given: Guid, generated: Guid): Guid {
    if given == Zeros(16) then generated else given
  }

  /** Writing everything and flushing it. */
  method WriteOut(dev: BlockDevice, parts: seq<Part>, guid: Guid, signedChar: bool) returns (err: Error)
    requires dev.Valid() && Supported(dev.sectorSizeShift) && LargeEnough(dev.sectorSizeShift, |dev.view|)
    modifies dev`medium, dev`faults, dev`rawReads, dev`rawWrites, dev`slots, dev`view, dev`past, dev.Parts
    modifies dev`rawSyncs, dev`syncedWrites
    ensures dev.Valid() && (err == Success || err == WriteFailure)
    ensures err == Success ==> dev.rawSyncs > old(dev.rawSyncs) && dev.syncedWrites == dev.rawWrites
    ensures err == Success ==>
              dev.medium == dev.view == FormattedDisk(old(dev.view), parts, dev.sectorSizeShift, guid, signedChar)
    ensures SameWithin(old(dev.view), dev.view, 2 + TableSectors(dev.sectorSizeShift),
                       BackupSector(dev.sectorSizeShift, |old(dev.view)|))
    ensures err == WriteFailure ==> dev.faults > old(dev.faults) || !InBounds(old(dev.slots), |dev.view|)
    ensures err == Success ==> InBounds(dev.slots, |dev.view|)
    ensures dev.faults >= old(dev.faults)
  {
    var ok := WriteGpt(dev, parts, guid, signedChar);
    if ok {
      ok := dev.Sync();
    }
    err := if ok then Success else WriteFailure;
  }

  /** Partitions a disk: the table is validated and filled in, and if that succeeds the disk is written. The drive has
      to be large enough, which the program does not check, and hangs is where validation never ends. */
  method FormatDisk(dev: BlockDevice, table: array<Part>, diskGuid: Guid, generated: Guid, signedChar: bool)
    returns (err: Error, hangs: bool)
    requires dev.Valid() && table !in dev.Parts
    requires Supported(dev.sectorSizeShift) ==> LargeEnough(dev.sectorSizeShift, |dev.view|)
    modifies dev`medium, dev`faults, dev`rawReads, dev`rawWrites, dev`slots, dev`view, dev`past, dev.Parts, table
    modifies dev`rawSyncs, dev`syncedWrites
    ensures dev.Valid() && |dev.view| == old(|dev.view|) && dev.faults >= old(dev.faults)
    ensures err == Success && !hangs ==> dev.rawSyncs > old(dev.rawSyncs) && dev.syncedWrites == dev.rawWrites
    ensures table.Length == 0 || !Supported(dev.sectorSizeShift) ==>
              err == BadParam && !hangs && dev.view == old(dev.view) && table[..] == old(table[..])
    ensures table.Length > 0 && Supported(dev.sectorSizeShift) ==>
              var shift := dev.sectorSizeShift;
              var v := Validated(old(table[..]), GptSpace(shift, |old(dev.view)|));
              && hangs == v.Hangs? && (hangs || v.err != Success ==> dev.view == old(dev.view))
              && SameWithin(old(dev.view), dev.view, 2 + TableSectors(shift), BackupSector(shift, |old(dev.view)|))
              && (!hangs ==>
                    && table[..] == v.parts
                    && (if v.err != Success then err == v.err else err == Success || err == WriteFailure)
                    && (v.err == Success && dev.faults == old(dev.faults) && InBounds(old(dev.slots), |dev.view|) ==>
                          err == Success))
    ensures err == Success && !hangs ==>
              && Supported(dev.sectorSizeShift) && dev.medium == dev.view && InBounds(dev.slots, |dev.view|)
              && dev.view == FormattedDisk(old(dev.view), table[..], dev.sectorSizeShift,
                                           DiskGuid(diskGuid, generated), signedChar)
  {
    if table.Length == 0 {
      return BadParam, false;
    }
    SupportedSizes(dev.sectorSizeShift);
    if dev.sectorSize > MAX_SECTOR_SIZE || dev.sectorSize < MIN_SECTOR_SIZE {
      return BadParam, false;
    }
    var shift, driveSectors := dev.sectorSizeShift, |dev.medium|;
    GeometryFacts(shift);
    err, hangs := Validate(table, GptSpace(shift, driveSectors));
    if err != Success || hangs {
      return;
    }
    err := WriteOut(dev, table[..], DiskGuid(diskGuid, generated), signedChar);
  }
}
